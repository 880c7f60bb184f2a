/**
 * The age-sort driver: `Person` records ordered by age fill one shared
 * `thread_priority_queue<Person>`, and the main thread drains it to the
 * output file until it judges the producers finished.
 *
 * Producers (one `std::async` task per input file) and the streams they
 * parse are not modelled; what the consumer loop observes in each iteration
 * -- whether its timed pop got a record, and whether every producer's future
 * was reported ready -- is given to it as a sequence of `Poll`s.
 */
module AgeSort {
  import opened Cli
  import opened Decimal
  import opened Heap
  import ThreadPriorityQueue

  /**
   * A person; `Person(a, n)` is the constructor `Person(int a, stringTp&& n)`,
   * which sets age a and name n. `age` is a C++ `int`; nothing here does
   * arithmetic on it, so its width never matters.
   */
  datatype Person = Person(age: int, name: string)

  /** `operator<`: compares ages only. */
  predicate Less(a: Person, b: Person) {
    a.age < b.age
  }

  /** `operator==`: both names and ages agree. */
  predicate Equal(a: Person, b: Person) {
    a.name == b.name && a.age == b.age
  }

  // The operators `std::rel_ops` derives from `operator<` and `operator==`.

  predicate Greater(a: Person, b: Person) {
    Less(b, a)
  }

  predicate LessOrEqual(a: Person, b: Person) {
    !Less(b, a)
  }

  predicate GreaterOrEqual(a: Person, b: Person) {
    !Less(a, b)
  }

  predicate NotEqual(a: Person, b: Person) {
    !Equal(a, b)
  }

  /** Renaming either person never changes how `operator<` orders them. */
  lemma LessIgnoresNames(a: Person, b: Person, m: string, n: string)
    ensures Less(a, b) <==> Less(a.(name := m), b.(name := n))
  {
  }

  /** `operator==` is equality of records; equal records are unordered by `operator<`. */
  lemma EqualIsSameRecord(a: Person, b: Person)
    ensures Equal(a, b) <==> a == b
    ensures Equal(a, b) ==> !Less(a, b) && !Less(b, a)
  {
  }

  /** The `>` of `std::rel_ops` holds exactly when the first person is older. */
  lemma GreaterMeansOlder(a: Person, b: Person)
    ensures Greater(a, b) <==> b.age < a.age
  {
  }

  /** The `<=` of `std::rel_ops` holds exactly when the first person is not older. */
  lemma LessOrEqualMeansNotOlder(a: Person, b: Person)
    ensures LessOrEqual(a, b) <==> a.age <= b.age
  {
  }

  /** The `>=` of `std::rel_ops` holds exactly when the first person is not younger. */
  lemma GreaterOrEqualMeansNotYounger(a: Person, b: Person)
    ensures GreaterOrEqual(a, b) <==> b.age <= a.age
  {
  }

  /** The `!=` of `std::rel_ops` holds exactly when the records differ, in name or in age. */
  lemma NotEqualMeansDifferentRecord(a: Person, b: Person)
    ensures NotEqual(a, b) <==> a != b
  {
  }

  /** `operator<` is a strict weak order (names being ignored, persons of equal age are equivalent). */
  lemma LessIsStrictWeakOrder()
    ensures StrictWeakOrder(Less)
  {
  }

  /** In the queue's heap, nobody is older than the person in slot 0. */
  lemma FrontIsOldest(s: seq<Person>)
    requires IsHeap(s, Less)
    ensures forall i :: 0 <= i < |s| ==> s[i].age <= s[0].age
  {
    HeapRootRanksHighest(s, Less);
  }

  /** `operator<<`: the name, then "; ", then the age in decimal, then a newline (`std::endl`). */
  function Format(p: Person): (line: string)
    ensures |line| > |p.name| + 3
    ensures line[..|p.name|] == p.name
    ensures line[|p.name|..|p.name| + 2] == "; "
    ensures IsSignedNumeral(line[|p.name| + 2..|line| - 1])
    ensures SignedValue(line[|p.name| + 2..|line| - 1]) == p.age
    ensures line[|line| - 1] == '\n'
  {
    var age := IntToString(p.age);
    var line := p.name + "; " + age + "\n";
    assert line[|p.name| + 2..|line| - 1] == age;
    IntRoundTrip(p.age);
    line
  }

  /** `thread_priority_queue<Person> People_Queue`: an empty queue ordered by `operator<`. */
  method NewPeopleQueue() returns (q: ThreadPriorityQueue.ThreadPriorityQueue<Person>)
    ensures fresh(q) && q.Valid()
    ensures q.Contents == [] && q.comp == Less
  {
    LessIsStrictWeakOrder();
    q := new ThreadPriorityQueue.ThreadPriorityQueue(Less, []);
  }

  /** `People_Queue.emplace(age, std::move(name))`: builds `Person(age, name)` in the queue. */
  method EmplacePerson(q: ThreadPriorityQueue.ThreadPriorityQueue<Person>, age: int, name: string)
    requires q.Valid() && q.comp == Less
    modifies q, q.data
    ensures q.Valid()
    ensures q.Contents == SiftUp(old(q.Contents) + [Person(age, name)], |old(q.Contents)|, Less)
    ensures multiset(q.Contents) == multiset(old(q.Contents)) + multiset{Person(age, name)}
  {
    q.Emplace((age, name), (args: (int, string)) => Person(args.0, args.1));
  }

  /** The argument checks at the top of `main`: `argc` and N = `std::atoi(argv[2])` as an `unsigned`. */
  function CheckArgs(argc: nat, parsedN: int): (r: ArgCheck)
    requires IsInt32(parsedN)
    ensures r == Exit(1) <==> argc < 4 || argc > 34
    ensures r == Exit(2) <==> 4 <= argc <= 34 && parsedN == 0
    ensures r.Proceed? <==> 4 <= argc <= 34 && parsedN != 0
    ensures r.Proceed? ==> r.count == ToUnsigned(parsedN) && 1 <= r.count < UnsignedModulus
  {
    if argc < 4 || argc > 34 then Exit(1)
    else if ToUnsigned(parsedN) < 1 then Exit(2)
    else Proceed(ToUnsigned(parsedN))
  }

  /** What one iteration of the consumer loop observes: the timed pop's outcome and whether all producers are done. */
  datatype Poll =
    | Got(person: Person, allReady: bool)
    | Missed(allReady: bool)

  /** The consumer's loop variables `done` and `waitedFor` (an `unsigned`, which never exceeds MissLimit + 1). */
  datatype ConsumerState = ConsumerState(done: bool, waitedFor: nat)

  /** The loop gives up after more than this many consecutive misses. */
  const MissLimit: nat := 10

  const Initial := ConsumerState(false, 0)

  /** One iteration of the loop's counter logic. */
  function Step(s: ConsumerState, poll: Poll): (r: ConsumerState)
    ensures poll.Got? ==> r.waitedFor == 0
    ensures poll.Missed? ==> r.waitedFor == s.waitedFor + 1
    ensures r.done <==> poll.allReady || r.waitedFor > MissLimit
  {
    var done := poll.allReady;
    if poll.Got? then ConsumerState(done, 0)
    else
      var waitedFor := s.waitedFor + 1;
      ConsumerState(done || waitedFor > MissLimit, waitedFor)
  }

  /** The loop state after the given iterations, starting from `done = false, waitedFor = 0`. */
  function Run(polls: seq<Poll>): ConsumerState {
    if polls == [] then Initial else Step(Run(polls[..|polls| - 1]), polls[|polls| - 1])
  }

  /** The number of misses at the end of polls since its last successful pop. */
  function TrailingMisses(polls: seq<Poll>): nat {
    if polls == [] || polls[|polls| - 1].Got? then 0 else 1 + TrailingMisses(polls[..|polls| - 1])
  }

  /** After any iterations, `waitedFor` counts the trailing misses, and `done` holds iff the last poll saw every producer ready or those misses exceed MissLimit. */
  lemma {:induction false} RunCountsMisses(polls: seq<Poll>)
    ensures Run(polls).waitedFor == TrailingMisses(polls)
    ensures polls != [] ==> (Run(polls).done <==> polls[|polls| - 1].allReady || TrailingMisses(polls) > MissLimit)
  {
    if polls != [] {
      RunCountsMisses(polls[..|polls| - 1]);
    }
  }

  /** MissLimit + 1 consecutive misses starting at poll j. */
  ghost predicate MissWindow(polls: seq<Poll>, j: nat) {
    && j + MissLimit + 1 <= |polls|
    && forall k :: j <= k < j + MissLimit + 1 ==> polls[k].Missed?
  }

  lemma {:induction false} TrailingMissesAtLeast(polls: seq<Poll>, m: nat)
    requires m <= |polls|
    requires forall k :: |polls| - m <= k < |polls| ==> polls[k].Missed?
    ensures TrailingMisses(polls) >= m
  {
    if m > 0 {
      var init := polls[..|polls| - 1];
      assert forall k :: |init| - (m - 1) <= k < |init| ==> init[k] == polls[k];
      TrailingMissesAtLeast(init, m - 1);
    }
  }

  /** The (MissLimit + 1)-th consecutive miss sets `done`. */
  lemma EleventhMissEndsLoop(polls: seq<Poll>, j: nat)
    requires MissWindow(polls, j)
    ensures Run(polls[..j + MissLimit + 1]).done
  {
    var prefix := polls[..j + MissLimit + 1];
    assert forall k :: j <= k < |prefix| ==> prefix[k] == polls[k];
    TrailingMissesAtLeast(prefix, MissLimit + 1);
    RunCountsMisses(prefix);
  }

  /** A loop that has not seen `done` before some iteration cannot have passed 11 consecutive misses. */
  lemma StopsByEleventhMiss(polls: seq<Poll>, iterations: nat)
    requires iterations <= |polls|
    requires forall n :: 0 <= n < iterations ==> !Run(polls[..n]).done
    ensures forall j: nat :: MissWindow(polls, j) ==> iterations <= j + MissLimit + 1
  {
    forall j: nat | MissWindow(polls, j)
      ensures iterations <= j + MissLimit + 1
    {
      EleventhMissEndsLoop(polls, j);
    }
  }

  /** The people the successful pops among polls delivered, in order. */
  function Popped(polls: seq<Poll>): seq<Person> {
    if polls == [] then []
    else
      var last := polls[|polls| - 1];
      Popped(polls[..|polls| - 1]) + (if last.Got? then [last.person] else [])
  }

  /** What the loop writes for the people it popped: each record, then one more `std::endl`. */
  function Transcript(people: seq<Person>): string {
    if people == [] then "" else Transcript(people[..|people| - 1]) + Format(people[|people| - 1]) + "\n"
  }

  /** Writing one more person appends that person's line and one more newline. */
  lemma TranscriptOneMore(people: seq<Person>, p: Person)
    ensures Transcript(people + [p]) == Transcript(people) + Format(p) + "\n"
  {
    assert (people + [p])[..|people|] == people;
  }

  /**
   * An iteration whose pop succeeds while every producer is ready ends the
   * loop, whatever came before: `done` is recomputed from the futures after a
   * successful pop too, so records still queued are not written.
   */
  lemma EndsAfterPopWhenAllReady(polls: seq<Poll>, p: Person)
    ensures Run(polls + [Got(p, true)]).done
    ensures Run(polls + [Got(p, true)]).waitedFor == 0
  {
    assert (polls + [Got(p, true)])[..|polls|] == polls;
  }

  /** Running one more iteration is one more `Step`, and pops at most one more person. */
  lemma RunOneMore(polls: seq<Poll>, i: nat)
    requires i < |polls|
    ensures Run(polls[..i + 1]) == Step(Run(polls[..i]), polls[i])
    ensures Popped(polls[..i + 1]) == Popped(polls[..i]) + (if polls[i].Got? then [polls[i].person] else [])
  {
    assert polls[..i + 1][..i] == polls[..i];
  }

  /**
   * One iteration of the consumer loop, entered while `done` is false: the
   * timed pop and the readiness test the poll reports, the record written
   * (`output << p << std::endl`) on a successful pop, and the update of
   * `waitedFor` and `done`.
   */
  method Iterate(polls: seq<Poll>, i: nat, waitedFor: nat, written: seq<Person>, text: string)
      returns (done': bool, waitedFor': nat, written': seq<Person>, text': string)
    requires i < |polls|
    requires ConsumerState(false, waitedFor) == Run(polls[..i])
    requires written == Popped(polls[..i]) && text == Transcript(written)
    ensures ConsumerState(done', waitedFor') == Run(polls[..i + 1])
    ensures written' == Popped(polls[..i + 1]) && text' == Transcript(written')
  {
    var poll := polls[i];
    RunOneMore(polls, i);
    done', written', text' := poll.allReady, written, text;
    if poll.Got? {
      TranscriptOneMore(written, poll.person);
      text' := text + Format(poll.person) + "\n";
      written' := written + [poll.person];
      waitedFor' := 0;
    } else {
      waitedFor' := waitedFor + 1;
      if waitedFor' > MissLimit {
        done' := true;
      }
    }
  }

  /** `done` was false after each of the first m iterations. */
  ghost predicate NotDoneBefore(polls: seq<Poll>, m: nat)
    requires m <= |polls|
  {
    forall n :: 0 <= n < m ==> !Run(polls[..n]).done
  }

  /**
   * The consumer loop of `main`: polls until `done`. Returns how many
   * iterations ran, the people written to the output file, in order, and the
   * text written. The loop stops exactly at the first iteration after which
   * `done` holds (or when the polls run out), so never later than the
   * (MissLimit + 1)-th consecutive miss.
   */
  method Consume(polls: seq<Poll>) returns (iterations: nat, written: seq<Person>, text: string)
    ensures iterations <= |polls|
    ensures forall n :: 0 <= n < iterations ==> !Run(polls[..n]).done
    ensures iterations < |polls| ==> Run(polls[..iterations]).done
    ensures forall j: nat :: MissWindow(polls, j) ==> iterations <= j + MissLimit + 1
    ensures written == Popped(polls[..iterations])
    ensures text == Transcript(written)
  {
    var done, waitedFor := false, 0;
    iterations, written, text := 0, [], "";
    while !done && iterations < |polls|
      invariant iterations <= |polls|
      invariant ConsumerState(done, waitedFor) == Run(polls[..iterations])
      invariant NotDoneBefore(polls, iterations)
      invariant written == Popped(polls[..iterations]) && text == Transcript(written)
    {
      assert !Run(polls[..iterations]).done;
      done, waitedFor, written, text := Iterate(polls, iterations, waitedFor, written, text);
      iterations := iterations + 1;
    }
    StopsByEleventhMiss(polls, iterations);
  }
}
