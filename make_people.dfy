/**
 * The output-file naming of `make_people`: `fileName()` numbers files from a
 * static counter, `genFNames` and `getFNames` build their vector of names on
 * the first call only (guarded by a static `made` flag) and return that same
 * vector ever after, and `main` checks its arguments before choosing between
 * the two. The function-local statics are the fields of one `Statics` object;
 * a fresh object is the state at program start.
 */
module MakePeople {
  import opened Cli
  import opened Decimal

  const Prefix := "output/people"
  const Suffix := ".txt"

  /** The name `fileName()` returns while its counter holds k. */
  function FileNameFor(k: nat): (name: string)
    ensures |name| > |Prefix| + |Suffix|
    ensures name[..|Prefix|] == Prefix
    ensures name[|name| - |Suffix|..] == Suffix
    ensures IsNumeral(name[|Prefix|..|name| - |Suffix|])
    ensures Value(name[|Prefix|..|name| - |Suffix|]) == k
  {
    var digits := NatToString(k);
    var name := Prefix + digits + Suffix;
    assert name[|Prefix|..|name| - |Suffix|] == digits;
    NatRoundTrip(k);
    name
  }

  /** Different counter values give different names. */
  lemma FileNamesDiffer(j: nat, k: nat)
    requires j != k
    ensures FileNameFor(j) != FileNameFor(k)
  {
    var a, b := FileNameFor(j), FileNameFor(k);
    if |a| == |b| {
      assert a[|Prefix|..|a| - |Suffix|] != b[|Prefix|..|b| - |Suffix|];
    }
  }

  /** The names of n consecutive `fileName()` calls made while the counter starts at `start`. */
  function NamesFrom(start: nat, n: nat): seq<string> {
    seq(n, i requires 0 <= i => FileNameFor(ToUnsigned(start + i)))
  }

  /** Counter values fewer than 2^32 calls apart differ once wrapped to 32 bits. */
  lemma WrapDistinct(a: nat, b: nat)
    requires a < b < a + UnsignedModulus
    ensures ToUnsigned(a) != ToUnsigned(b)
  {
    var qa, qb := a / UnsignedModulus, b / UnsignedModulus;
    assert a == qa * UnsignedModulus + ToUnsigned(a);
    assert b == qb * UnsignedModulus + ToUnsigned(b);
    if qa == qb {
      assert ToUnsigned(b) - ToUnsigned(a) == b - a;
    } else {
      assert qa < qb;
      assert (qb - qa) * UnsignedModulus >= UnsignedModulus;
    }
  }

  /** At most 2^32 consecutive calls never repeat a name. */
  lemma NamesFromDistinct(start: nat, n: nat)
    requires n <= UnsignedModulus
    ensures forall i, j :: 0 <= i < j < n ==> NamesFrom(start, n)[i] != NamesFrom(start, n)[j]
  {
    forall i, j | 0 <= i < j < n
      ensures NamesFrom(start, n)[i] != NamesFrom(start, n)[j]
    {
      WrapDistinct(start + i, start + j);
      FileNamesDiffer(ToUnsigned(start + i), ToUnsigned(start + j));
    }
  }

  /** The function-local statics of `fileName`, `genFNames` and `getFNames`. */
  class Statics {
    var counter: nat            // `_xxx` in fileName, an `unsigned`
    var genMade: bool           // `made` in genFNames
    var genNames: seq<string>   // `vec` in genFNames
    var getMade: bool           // `made` in getFNames
    var getNames: seq<string>   // `vec` in getFNames
    var getIndex: int           // `i` in getFNames

    ghost predicate Valid()
      reads this
    {
      counter < UnsignedModulus && (!getMade ==> getIndex == 0)
    }

    /** The statics at program start. */
    constructor ()
      ensures Valid()
      ensures counter == 1 && !genMade && !getMade && getIndex == 0
    {
      counter, genMade, genNames := 1, false, [];
      getMade, getNames, getIndex := false, [], 0;
    }

    /** `fileName()`: names a file after the counter and advances the counter (wrapping at 2^32). */
    method FileName() returns (name: string)
      requires Valid()
      modifies this`counter
      ensures Valid()
      ensures name == FileNameFor(old(counter))
      ensures counter == ToUnsigned(old(counter) + 1)
    {
      name := Prefix + NatToString(counter) + Suffix;
      counter := ToUnsigned(counter + 1);
    }

    /**
     * `genFNames(n)`: on the first call, n names from n `fileName()` calls;
     * on every later call, the same vector again, whatever n is.
     */
    method GenFNames(n: nat) returns (names: seq<string>)
      requires Valid() && n < UnsignedModulus
      modifies this`counter, this`genMade, this`genNames
      ensures Valid() && genMade && names == genNames
      ensures !old(genMade) ==> names == NamesFrom(old(counter), n) && counter == ToUnsigned(old(counter) + n)
      ensures old(genMade) ==> names == old(genNames) && counter == old(counter)
    {
      if !genMade {
        genNames := seq(n, _ => "");
        var j := 0;
        while j < n
          invariant j <= n && |genNames| == n && Valid()
          invariant counter == ToUnsigned(old(counter) + j)
          invariant forall i :: 0 <= i < j ==> genNames[i] == FileNameFor(ToUnsigned(old(counter) + i))
        {
          var name := FileName();
          WrapStep(old(counter) + j);
          genNames := genNames[j := name];
          j := j + 1;
        }
        genMade := true;
      }
      names := genNames;
    }

    /**
     * `getFNames(argv, n)`: on the first call, `argv[2]`, ..., `argv[n + 1]`
     * in order; on every later call, the same vector again, without reading argv.
     */
    method GetFNames(argv: seq<string>, n: nat) returns (names: seq<string>)
      requires Valid() && n < UnsignedModulus
      requires !getMade ==> n + 2 <= |argv|
      modifies this`getMade, this`getNames, this`getIndex
      ensures Valid() && getMade && names == getNames
      ensures !old(getMade) ==> names == argv[2..n + 2] && getIndex == n
      ensures old(getMade) ==> names == old(getNames) && getIndex == old(getIndex)
    {
      if !getMade {
        getNames := seq(n, _ => "");
        var j := 0;
        while j < n
          invariant j <= n && |getNames| == n
          invariant getIndex == j
          invariant forall k :: 0 <= k < j ==> getNames[k] == argv[k + 2]
        {
          getIndex := getIndex + 1;
          getNames := getNames[j := argv[getIndex + 1]];
          j := j + 1;
        }
        getMade := true;
      }
      names := getNames;
    }
  }

  /** One more step of a wrapped counter is the wrap of one more step. */
  lemma WrapStep(x: nat)
    ensures ToUnsigned(ToUnsigned(x) + 1) == ToUnsigned(x + 1)
  {
    var q := x / UnsignedModulus;
    assert x == q * UnsignedModulus + ToUnsigned(x);
    if ToUnsigned(x) + 1 == UnsignedModulus {
      assert x + 1 == (q + 1) * UnsignedModulus;
    } else {
      assert x + 1 == q * UnsignedModulus + (ToUnsigned(x) + 1);
    }
  }

  /** The argument checks at the top of `main`: `argc` and N = `std::atoi(argv[1])` as an `unsigned`. */
  function CheckArgs(argc: nat, parsedN: int): (r: ArgCheck)
    requires IsInt32(parsedN)
    ensures r == Exit(-1) <==> argc < 2
    ensures r == Exit(2) <==> argc >= 2 && parsedN == 0
    ensures r.Proceed? <==> argc >= 2 && parsedN != 0
    ensures r.Proceed? ==> r.count == ToUnsigned(parsedN) && 1 <= r.count < UnsignedModulus
  {
    if argc < 2 then Exit(-1)
    else if ToUnsigned(parsedN) < 1 then Exit(2)
    else Proceed(ToUnsigned(parsedN))
  }

  /**
   * `main` up to the opening of the output files: the argument checks, then
   * the names `getFNames(argv, N)` gives when file names follow N, or else
   * those of `genFNames(N)`, from the statics as they are at program start.
   * `parsedN` is what `std::atoi(argv[1])` returns.
   */
  method OutputFiles(argv: seq<string>, parsedN: int) returns (r: ArgCheck, files: seq<string>)
    requires IsInt32(parsedN)
    requires |argv| > 2 && parsedN != 0 ==> ToUnsigned(parsedN) + 2 <= |argv|
    ensures r == CheckArgs(|argv|, parsedN)
    ensures r.Exit? ==> files == []
    ensures r.Proceed? && |argv| > 2 ==> files == argv[2..r.count + 2]
    ensures r.Proceed? && |argv| <= 2 ==> |files| == r.count
    ensures r.Proceed? && |argv| <= 2 ==> forall i :: 0 <= i < |files| ==> files[i] == FileNameFor(i + 1)
  {
    r := CheckArgs(|argv|, parsedN);
    files := [];
    if r.Proceed? {
      var statics := new Statics();
      if |argv| > 2 {
        files := statics.GetFNames(argv, r.count);
      } else {
        files := statics.GenFNames(r.count);
      }
    }
  }
}
