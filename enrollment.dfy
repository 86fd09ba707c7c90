/**
 * The allocation pass of tool/HackEnrollment.c: courses own an Israeli
 * queue of students; hackEnrollment registers the three scorers on every
 * course queue, enqueues each hacker into each course it wants, checks every
 * hacker's admission on clones of the queues and reports either the first
 * hacker whose wishes cannot be met or the final queue of every course.
 */
module Enrollment {
  import opened Wrappers
  import opened Affinity
  import opened Queue
  import opened Scoring

  /** A course as a value: its number, its capacity and its queue. */
  datatype CourseView = CourseView(number: int, size: int, queue: QueueState<Student>)

  /** The comparison the course queues are created with. The tool passes a
      NULL comparison function; nothing in the allocation pass calls it. */
  function NoComparison(a: Student, b: Student): int
  {
    0
  }

  class Course {
    const number: int
    const size: int
    const queue: IsraeliQueue<Student>

    /** createCourse: a course with an empty queue, no scorers and the tool's
        two thresholds. */
    constructor (number: int, size: int)
      ensures this.number == number && this.size == size
      ensures fresh(queue)
      ensures queue.State() == QueueState([], [], NoComparison, FRIENDSHIP_THRESHOLD, RIVALRY_THRESHOLD)
    {
      this.number := number;
      this.size := size;
      this.queue := new IsraeliQueue([], NoComparison, FRIENDSHIP_THRESHOLD, RIVALRY_THRESHOLD);
    }

    function View(): CourseView
      reads queue
    {
      CourseView(number, size, queue.State())
    }
  }

  /** The courses as values, in roster order. */
  function ViewsOf(cs: seq<Course>): (r: seq<CourseView>)
    reads set i | 0 <= i < |cs| :: cs[i].queue
    ensures |r| == |cs|
    ensures forall i :: 0 <= i < |cs| ==> r[i] == cs[i].View()
  {
    if cs == [] then [] else ViewsOf(cs[..|cs| - 1]) + [cs[|cs| - 1].View()]
  }

  /** The indices of the courses a student wants (none for a non-hacker). */
  function Desired(s: Student): seq<nat>
  {
    if s.hacker.Some? then s.hacker.value.courses else []
  }

  /** Every desired course of every hacker is a course of the roster. */
  predicate CoursesInRange(hs: seq<Student>, n: nat)
  {
    forall k, j :: 0 <= k < |hs| && 0 <= j < |Desired(hs[k])| ==> Desired(hs[k])[j] < n
  }

  class EnrollmentSystem {
    const students: seq<Student>
    const courses: seq<Course>
    const hackers: seq<Student>
    var caseSensitive: bool

    constructor (students: seq<Student>, courses: seq<Course>, hackers: seq<Student>)
      ensures this.students == students && this.courses == courses && this.hackers == hackers
      ensures !caseSensitive
    {
      this.students := students;
      this.courses := courses;
      this.hackers := hackers;
      this.caseSensitive := false;
    }

    /** Every course owns its own queue, and every hacker's desired course
        exists (the parser stores a NULL course otherwise, which the
        allocation pass would dereference). */
    ghost predicate Valid()
    {
      (forall i, j :: 0 <= i < |courses| && 0 <= j < |courses| && i != j ==> courses[i].queue != courses[j].queue) &&
      CoursesInRange(hackers, |courses|)
    }

    function Queues(): set<IsraeliQueue<Student>>
    {
      set i | 0 <= i < |courses| :: courses[i].queue
    }

    function Views(): seq<CourseView>
      reads Queues()
    {
      ViewsOf(courses)
    }

    /** setCaseSensitive. */
    method SetCaseSensitive(sensitive: bool)
      modifies this
      ensures caseSensitive == sensitive
    {
      caseSensitive := sensitive;
    }
  }

  // ---------------------------------------------------------------------------
  // getCourseFromNum
  // ---------------------------------------------------------------------------

  /** getCourseFromNum: the first course of the roster with the given
      number, or None (NULL) when there is none. */
  method GetCourseFromNum(courses: seq<Course>, num: int) returns (r: Option<nat>)
    ensures r.Some? ==> r.value < |courses| && courses[r.value].number == num &&
                        forall j :: 0 <= j < r.value ==> courses[j].number != num
    ensures r.None? ==> forall j :: 0 <= j < |courses| ==> courses[j].number != num
  {
    var i := 0;
    while i < |courses|
      invariant 0 <= i <= |courses|
      invariant forall j :: 0 <= j < i ==> courses[j].number != num
    {
      if courses[i].number == num {
        return Some(i);
      }
      i := i + 1;
    }
    r := None;
  }

  // ---------------------------------------------------------------------------
  // Registering the scorers (hackEnrollment, first loop)
  // ---------------------------------------------------------------------------

  /** The scorers hackEnrollment adds to every course queue, in order. */
  function EnrollmentScorers(caseSensitive: bool): seq<Scorer<Student>>
  {
    [FriendshipFunction1,
     if caseSensitive then FriendshipFunction2Sensitive else FriendshipFunction2Insensitive,
     FriendshipFunction3]
  }

  function WithScorers(v: CourseView, caseSensitive: bool): CourseView
  {
    v.(queue := v.queue.(scorers := v.queue.scorers + EnrollmentScorers(caseSensitive)))
  }

  /** The three additions on one course queue. On success the queue has the
      three scorers appended; when an addition fails the queue has a proper
      prefix of them appended (the failing addition appends nothing), and
      nothing else changes. */
  method RegisterOn(q: IsraeliQueue<Student>, caseSensitive: bool) returns (ok: bool)
    modifies q
    ensures ok ==> q.State() == old(q.State()).(scorers := old(q.scorers) + EnrollmentScorers(caseSensitive))
    ensures !ok ==> q.State() == old(q.State()).(scorers := q.scorers)
    ensures !ok ==> old(q.scorers) <= q.scorers <= old(q.scorers) + EnrollmentScorers(caseSensitive)
    ensures !ok ==> |q.scorers| < |old(q.scorers)| + |EnrollmentScorers(caseSensitive)|
  {
    var scorer2 := if caseSensitive then FriendshipFunction2Sensitive else FriendshipFunction2Insensitive;
    var err := q.AddFriendshipMeasure(FriendshipFunction1);
    if err == Success {
      err := q.AddFriendshipMeasure(scorer2);
    }
    if err == Success {
      err := q.AddFriendshipMeasure(FriendshipFunction3);
    }
    ok := err == Success;
  }

  /** The courses after a registration pass that stopped at course f: the
      courses before f have all three scorers, course f has a proper prefix of
      them and is otherwise unchanged, and the courses after f are unchanged. */
  ghost predicate StoppedAt(before: seq<CourseView>, after: seq<CourseView>, f: nat, caseSensitive: bool)
  {
    && f < |before| && |after| == |before|
    && (forall k :: 0 <= k < f ==> after[k] == WithScorers(before[k], caseSensitive))
    && after[f] == before[f].(queue := before[f].queue.(scorers := after[f].queue.scorers))
    && before[f].queue.scorers <= after[f].queue.scorers
    && after[f].queue.scorers <= before[f].queue.scorers + EnrollmentScorers(caseSensitive)
    && |after[f].queue.scorers| < |before[f].queue.scorers| + |EnrollmentScorers(caseSensitive)|
    && (forall k :: f < k < |before| ==> after[k] == before[k])
  }

  /** The scorers are added to every course, course by course. When an
      addition fails the pass stops: earlier courses have all three, the
      failing course a proper prefix of them, later courses none. */
  method RegisterScorers(sys: EnrollmentSystem) returns (registered: bool)
    requires sys.Valid()
    modifies sys.Queues()
    ensures registered ==> sys.Views() == AllWithScorers(old(sys.Views()), sys.caseSensitive)
    ensures !registered ==>
      exists f :: StoppedAt(old(sys.Views()), sys.Views(), f, sys.caseSensitive)
  {
    ghost var start := sys.Views();
    var i := 0;
    while i < |sys.courses|
      invariant 0 <= i <= |sys.courses|
      invariant forall k :: 0 <= k < i ==>
        sys.courses[k].View() == WithScorers(start[k], sys.caseSensitive)
      invariant forall k :: i <= k < |sys.courses| ==>
        sys.courses[k].queue.State() == old(sys.courses[k].queue.State())
    {
      var ok := RegisterOn(sys.courses[i].queue, sys.caseSensitive);
      if !ok {
        assert StoppedAt(start, sys.Views(), i, sys.caseSensitive) by {
          assert forall k :: 0 <= k < |sys.courses| ==> sys.Views()[k] == sys.courses[k].View();
        }
        return false;
      }
      i := i + 1;
    }
    registered := true;
    assert sys.Views() == AllWithScorers(start, sys.caseSensitive) by {
      forall k | 0 <= k < |sys.courses|
        ensures sys.Views()[k] == AllWithScorers(start, sys.caseSensitive)[k]
      {
      }
    }
  }

  // ---------------------------------------------------------------------------
  // enqueueHackers
  // ---------------------------------------------------------------------------

  /** Enqueue s into each course of cs, in order. */
  function EnqueueInto(vs: seq<CourseView>, s: Student, cs: seq<nat>): (r: seq<CourseView>)
    requires forall j :: 0 <= j < |cs| ==> cs[j] < |vs|
    ensures |r| == |vs|
  {
    if cs == [] then vs
    else
      var before := EnqueueInto(vs, s, cs[..|cs| - 1]);
      var c := cs[|cs| - 1];
      before[c := before[c].(queue := Enqueued(before[c].queue, s))]
  }

  /** Enqueue every hacker, in roster order, into each of its desired courses. */
  function EnqueueHackersSpec(vs: seq<CourseView>, hs: seq<Student>): (r: seq<CourseView>)
    requires CoursesInRange(hs, |vs|)
    ensures |r| == |vs|
  {
    if hs == [] then vs
    else EnqueueInto(EnqueueHackersSpec(vs, hs[..|hs| - 1]), hs[|hs| - 1], Desired(hs[|hs| - 1]))
  }

  /** The inner loop of enqueueHackers: one hacker goes into the queue of
      each of its desired courses, in the order listed. */
  method EnqueueHacker(sys: EnrollmentSystem, hacker: Student)
    requires sys.Valid()
    requires forall j :: 0 <= j < |Desired(hacker)| ==> Desired(hacker)[j] < |sys.courses|
    modifies sys.Queues()
    ensures sys.Views() == EnqueueInto(old(sys.Views()), hacker, Desired(hacker))
  {
    var cs := Desired(hacker);
    ghost var base := sys.Views();
    var j := 0;
    while j < |cs|
      invariant 0 <= j <= |cs|
      invariant sys.Views() == EnqueueInto(base, hacker, cs[..j])
    {
      ghost var before := sys.Views();
      var c := cs[j];
      sys.courses[c].queue.Enqueue(hacker);
      EnqueueOneCourse(sys, c, before, hacker);
      assert cs[..j + 1][..j] == cs[..j];
      j := j + 1;
    }
    assert cs[..j] == cs;
  }

  /** enqueueHackers: every hacker goes into the queue of each of its desired
      courses, hackers in roster order and courses in the order listed. */
  method EnqueueHackers(sys: EnrollmentSystem)
    requires sys.Valid()
    modifies sys.Queues()
    ensures sys.Views() == EnqueueHackersSpec(old(sys.Views()), sys.hackers)
  {
    ghost var start := sys.Views();
    var i := 0;
    while i < |sys.hackers|
      invariant 0 <= i <= |sys.hackers|
      invariant sys.Views() == EnqueueHackersSpec(start, sys.hackers[..i])
    {
      EnqueueHackersSpecLast(start, sys.hackers[..i + 1]);
      assert sys.hackers[..i + 1][..i] == sys.hackers[..i];
      EnqueueHacker(sys, sys.hackers[i]);
      i := i + 1;
    }
    assert sys.hackers[..i] == sys.hackers;
  }

  /** The last hacker of a roster is enqueued after all the others. */
  lemma EnqueueHackersSpecLast(vs: seq<CourseView>, hs: seq<Student>)
    requires hs != [] && CoursesInRange(hs, |vs|)
    ensures CoursesInRange(hs[..|hs| - 1], |vs|)
    ensures CoursesInRange([hs[|hs| - 1]], |vs|)
    ensures EnqueueHackersSpec(vs, hs) ==
            EnqueueInto(EnqueueHackersSpec(vs, hs[..|hs| - 1]), hs[|hs| - 1], Desired(hs[|hs| - 1]))
  {
    CoursesInRangeSplit(hs, |vs|);
  }

  /** The range condition holds for the roster without its last hacker, and for the last hacker alone. */
  lemma CoursesInRangeSplit(hs: seq<Student>, n: nat)
    requires hs != [] && CoursesInRange(hs, n)
    ensures CoursesInRange(hs[..|hs| - 1], n)
    ensures CoursesInRange([hs[|hs| - 1]], n)
  {
    var init := hs[..|hs| - 1];
    forall k, j | 0 <= k < |init| && 0 <= j < |Desired(init[k])|
      ensures Desired(init[k])[j] < n
    {
      assert init[k] == hs[k];
    }
    var last := [hs[|hs| - 1]];
    forall k, j | 0 <= k < 1 && 0 <= j < |Desired(last[k])|
      ensures Desired(last[k])[j] < n
    {
      assert last[k] == hs[|hs| - 1];
    }
  }

  /** After one enqueue into course c's queue, only course c's view changed. */
  lemma EnqueueOneCourse(sys: EnrollmentSystem, c: nat, before: seq<CourseView>, s: Student)
    requires sys.Valid()
    requires c < |sys.courses| && |before| == |sys.courses|
    requires sys.courses[c].queue.State() == Enqueued(before[c].queue, s)
    requires forall k :: 0 <= k < |sys.courses| && k != c ==> sys.courses[k].View() == before[k]
    requires before[c].number == sys.courses[c].number && before[c].size == sys.courses[c].size
    ensures sys.Views() == before[c := before[c].(queue := Enqueued(before[c].queue, s))]
  {
  }

  // ---------------------------------------------------------------------------
  // isInCourse and the feasibility check
  // ---------------------------------------------------------------------------

  /** The student's ID is among the first `size` IDs of the course queue. */
  predicate InCourse(v: CourseView, id: string)
  {
    exists i :: 0 <= i < |v.queue.nodes| && i < v.size && v.queue.nodes[i].item.id == id
  }

  /** isInCourse: dequeues at most `size` students from a clone of the
      course queue, looking for the ID. The source dereferences the NULL a
      drained clone returns, so the queue must hold `size` students or the
      student must be found first. The course queue itself is untouched. */
  method IsInCourse(student: Student, course: Course) returns (r: bool)
    requires course.size <= |course.queue.nodes| || InCourse(course.View(), student.id)
    ensures r == InCourse(course.View(), student.id)
  {
    var clone := course.queue.Clone();
    ghost var nodes := course.queue.nodes;
    var left := course.size;
    ghost var k: nat := 0;
    while left > 0
      invariant fresh(clone)
      invariant k <= |nodes| && clone.nodes == nodes[k..]
      invariant left == course.size - k
      invariant forall i :: 0 <= i < k ==> nodes[i].item.id != student.id
      decreases left
    {
      var s := Dequeue(clone);
      if s.value.id == student.id {
        return true;
      }
      left := left - 1;
      k := k + 1;
    }
    r := false;
  }

  /** Every hacker ends up in the queue of each course it asked for: later
      enqueues only insert. */
  lemma {:induction false} EnqueueIntoKeeps(vs: seq<CourseView>, s: Student, cs: seq<nat>, c: nat, x: Student)
    requires forall j :: 0 <= j < |cs| ==> cs[j] < |vs|
    requires c < |vs| && x in Items(vs[c].queue.nodes)
    ensures x in Items(EnqueueInto(vs, s, cs)[c].queue.nodes)
  {
    if cs != [] {
      var before := EnqueueInto(vs, s, cs[..|cs| - 1]);
      EnqueueIntoKeeps(vs, s, cs[..|cs| - 1], c, x);
      var d := cs[|cs| - 1];
      if d == c {
        EnqueueItems(before[c].queue, s);
        assert x in multiset(Items(before[c].queue.nodes));
      }
    }
  }

  lemma {:induction false} EnqueueIntoAdds(vs: seq<CourseView>, s: Student, cs: seq<nat>, j: nat)
    requires forall i :: 0 <= i < |cs| ==> cs[i] < |vs|
    requires j < |cs|
    ensures s in Items(EnqueueInto(vs, s, cs)[cs[j]].queue.nodes)
  {
    var init := cs[..|cs| - 1];
    var before := EnqueueInto(vs, s, init);
    var d := cs[|cs| - 1];
    EnqueueItems(before[d].queue, s);
    assert s in multiset(Items(EnqueueInto(vs, s, cs)[d].queue.nodes));
    if j < |cs| - 1 {
      EnqueueIntoAdds(vs, s, init, j);
      assert init[j] == cs[j];
      EnqueueIntoKeeps(before, s, [d], cs[j], s);
      assert EnqueueInto(before, s, [d]) == EnqueueInto(vs, s, cs) by {
        assert [d][..0] == [];
      }
    }
  }

  /** After enqueueHackers, every hacker is in the queue of every course it
      asked for. */
  lemma {:induction false} HackersAreQueued(vs: seq<CourseView>, hs: seq<Student>, k: nat, j: nat)
    requires CoursesInRange(hs, |vs|)
    requires k < |hs| && j < |Desired(hs[k])|
    ensures hs[k] in Items(EnqueueHackersSpec(vs, hs)[Desired(hs[k])[j]].queue.nodes)
  {
    var init := hs[..|hs| - 1];
    EnqueueHackersSpecLast(vs, hs);
    var before := EnqueueHackersSpec(vs, init);
    var last := hs[|hs| - 1];
    if k == |hs| - 1 {
      EnqueueIntoAdds(before, last, Desired(last), j);
    } else {
      assert init[k] == hs[k];
      HackersAreQueued(vs, init, k, j);
      EnqueueIntoKeeps(before, last, Desired(last), Desired(hs[k])[j], hs[k]);
    }
  }

  /** A student present in a queue can be looked up by isInCourse without
      running off the end of the clone. */
  lemma AdmissionCheckDefined(v: CourseView, s: Student)
    requires s in Items(v.queue.nodes)
    ensures v.size <= |v.queue.nodes| || InCourse(v, s.id)
  {
    var items := Items(v.queue.nodes);
    var p :| 0 <= p < |items| && items[p] == s;
    assert v.queue.nodes[p].item.id == s.id;
  }

  /** The number of desired courses (counted with repetition) that decline the student. */
  function DeclinedCount(vs: seq<CourseView>, id: string, cs: seq<nat>): (n: nat)
    requires forall j :: 0 <= j < |cs| ==> cs[j] < |vs|
    ensures n <= |cs|
  {
    if cs == [] then 0
    else DeclinedCount(vs, id, cs[..|cs| - 1]) + (if InCourse(vs[cs[|cs| - 1]], id) then 0 else 1)
  }

  /** The positions of cs whose course declines the student. */
  ghost function Declined(vs: seq<CourseView>, id: string, cs: seq<nat>): set<nat>
    requires forall j :: 0 <= j < |cs| ==> cs[j] < |vs|
  {
    set j: nat | j < |cs| && !InCourse(vs[cs[j]], id)
  }

  /** The running count is the size of the set of declining positions. */
  lemma {:induction false} DeclinedCountIsCardinality(vs: seq<CourseView>, id: string, cs: seq<nat>)
    requires forall j :: 0 <= j < |cs| ==> cs[j] < |vs|
    ensures DeclinedCount(vs, id, cs) == |Declined(vs, id, cs)|
  {
    if cs != [] {
      var init := cs[..|cs| - 1];
      var n := |cs| - 1;
      DeclinedCountIsCardinality(vs, id, init);
      if InCourse(vs[cs[n]], id) {
        assert Declined(vs, id, cs) == Declined(vs, id, init);
      } else {
        assert Declined(vs, id, cs) == Declined(vs, id, init) + {n};
        assert n !in Declined(vs, id, init);
      }
    }
  }

  /** hackEnrollment's test of one hacker: a hacker with exactly one desired
      course must be admitted to it; any other hacker may be declined by at
      most one of its courses. */
  predicate Feasible(vs: seq<CourseView>, s: Student)
    requires forall j :: 0 <= j < |Desired(s)| ==> Desired(s)[j] < |vs|
  {
    var cs := Desired(s);
    if |cs| == 1 then InCourse(vs[cs[0]], s.id) else DeclinedCount(vs, s.id, cs) < 2
  }

  /** Stated without the running count: a hacker passes iff it is admitted to
      its only course, or fewer than two of its desired positions decline it;
      so a hacker with no desired course always passes. */
  lemma FeasibleIff(vs: seq<CourseView>, s: Student)
    requires forall j :: 0 <= j < |Desired(s)| ==> Desired(s)[j] < |vs|
    ensures |Desired(s)| == 1 ==> (Feasible(vs, s) <==> InCourse(vs[Desired(s)[0]], s.id))
    ensures |Desired(s)| != 1 ==> (Feasible(vs, s) <==> |Declined(vs, s.id, Desired(s))| < 2)
    ensures |Desired(s)| == 0 ==> Feasible(vs, s)
  {
    DeclinedCountIsCardinality(vs, s.id, Desired(s));
  }

  /** The first hacker at or after index k that fails the test. */
  function FirstInfeasible(vs: seq<CourseView>, hs: seq<Student>, k: nat): (r: Option<nat>)
    requires CoursesInRange(hs, |vs|)
    ensures r.Some? ==> k <= r.value < |hs| && !Feasible(vs, hs[r.value]) &&
                        forall j :: k <= j < r.value ==> Feasible(vs, hs[j])
    ensures r.None? ==> forall j :: k <= j < |hs| ==> Feasible(vs, hs[j])
    decreases |hs| - k
  {
    if k >= |hs| then None
    else if !Feasible(vs, hs[k]) then Some(k)
    else FirstInfeasible(vs, hs, k + 1)
  }

  // ---------------------------------------------------------------------------
  // The report (printSuccess and the failure line)
  // ---------------------------------------------------------------------------

  function FailureLine(id: string): string
  {
    "Cannot satisfy constraints for " + id
  }

  function IdsOf(nodes: seq<Node<Student>>): (r: seq<string>)
    ensures |r| == |nodes|
    ensures forall i :: 0 <= i < |nodes| ==> r[i] == nodes[i].item.id
  {
    seq(|nodes|, i requires 0 <= i < |nodes| => nodes[i].item.id)
  }

  /** A course's line: its number, then the IDs of its queue from head to tail. */
  function SuccessLine(v: CourseView): string
  {
    Join([DecimalString(v.number)] + IdsOf(v.queue.nodes))
  }

  /** One line per course with a non-empty queue, in roster order. */
  function SuccessLines(vs: seq<CourseView>): seq<string>
  {
    if vs == [] then []
    else SuccessLines(vs[..|vs| - 1]) + (if vs[|vs| - 1].queue.nodes == [] then [] else [SuccessLine(vs[|vs| - 1])])
  }

  /** The whole output of the allocation pass (each line ends in a newline
      in the output file). */
  function Report(vs: seq<CourseView>, hs: seq<Student>): seq<string>
    requires CoursesInRange(hs, |vs|)
  {
    match FirstInfeasible(vs, hs, 0)
    case Some(k) => [FailureLine(hs[k].id)]
    case None => SuccessLines(vs)
  }

  /** A course line, read back with countElementsInLine, has one element for
      the course number and one per queued student. */
  lemma SuccessLineElements(v: CourseView)
    requires forall i :: 0 <= i < |v.queue.nodes| ==> IsWord(v.queue.nodes[i].item.id)
    ensures ElementCount(SuccessLine(v)) == 1 + |v.queue.nodes|
  {
    var words := [DecimalString(v.number)] + IdsOf(v.queue.nodes);
    assert forall i :: 0 <= i < |words| ==> IsWord(words[i]);
    JoinElementCount(words);
  }

  /** The body of printSuccess for one course: drain a clone of its queue;
      nothing when the clone is empty, else the course number followed by
      the IDs from head to tail. The course queue is untouched. */
  method CourseLine(course: Course) returns (line: Option<string>)
    ensures course.queue.nodes == [] ==> line == None
    ensures course.queue.nodes != [] ==> line == Some(SuccessLine(course.View()))
  {
    ghost var v := course.View();
    ghost var nodes := v.queue.nodes;
    var temp := course.queue.Clone();
    var student := Dequeue(temp);
    if student.None? {
      return None;
    }
    var text := DecimalString(course.number);
    ghost var j := 0;
    while student.Some?
      invariant fresh(temp)
      invariant 0 <= j <= |nodes|
      invariant student.Some? <==> j < |nodes|
      invariant student.Some? ==> student.value == nodes[j].item
      invariant temp.nodes == if j < |nodes| then nodes[j + 1..] else []
      invariant text == Join([DecimalString(v.number)] + IdsOf(nodes[..j]))
      decreases |nodes| - j
    {
      LineStep(v.number, nodes, j);
      text := text + [SPACE_CHAR] + student.value.id;
      student := Dequeue(temp);
      j := j + 1;
    }
    assert nodes[..j] == nodes;
    assert course.View() == v;
    line := Some(text);
  }

  /** A course line grows by a space and the next ID. */
  lemma LineStep(number: int, nodes: seq<Node<Student>>, j: nat)
    requires j < |nodes|
    ensures Join([DecimalString(number)] + IdsOf(nodes[..j + 1])) ==
            Join([DecimalString(number)] + IdsOf(nodes[..j])) + [SPACE_CHAR] + nodes[j].item.id
  {
    var words := [DecimalString(number)] + IdsOf(nodes[..j + 1]);
    assert words[..|words| - 1] == [DecimalString(number)] + IdsOf(nodes[..j]);
  }

  /** printSuccess: one line per course with a non-empty queue, in roster
      order. The course queues are untouched. */
  method PrintSuccess(sys: EnrollmentSystem) returns (lines: seq<string>)
    ensures lines == SuccessLines(sys.Views())
  {
    ghost var vs := sys.Views();
    lines := [];
    var i := 0;
    while i < |sys.courses|
      invariant 0 <= i <= |sys.courses|
      invariant lines == SuccessLines(vs[..i])
    {
      var line := CourseLine(sys.courses[i]);
      assert vs[..i + 1][..i] == vs[..i];
      if line.Some? {
        lines := lines + [line.value];
      }
      i := i + 1;
    }
    assert vs[..i] == vs;
  }

  // ---------------------------------------------------------------------------
  // hackEnrollment
  // ---------------------------------------------------------------------------

  /** Every hacker is in the queue of each course it asked for. */
  ghost predicate HackersQueued(vs: seq<CourseView>, hs: seq<Student>)
    requires CoursesInRange(hs, |vs|)
  {
    forall k, j :: 0 <= k < |hs| && 0 <= j < |Desired(hs[k])| ==>
      hs[k] in Items(vs[Desired(hs[k])[j]].queue.nodes)
  }

  lemma EnqueuedHackersQueued(vs: seq<CourseView>, hs: seq<Student>)
    requires CoursesInRange(hs, |vs|)
    ensures HackersQueued(EnqueueHackersSpec(vs, hs), hs)
  {
    forall k, j | 0 <= k < |hs| && 0 <= j < |Desired(hs[k])|
      ensures hs[k] in Items(EnqueueHackersSpec(vs, hs)[Desired(hs[k])[j]].queue.nodes)
    {
      HackersAreQueued(vs, hs, k, j);
    }
  }

  /** The counting loop of hackEnrollment's test: how many desired courses
      decline the hacker, by isInCourse on each. */
  method CountDeclined(sys: EnrollmentSystem, hacker: Student) returns (declined: nat)
    requires forall j :: 0 <= j < |Desired(hacker)| ==> Desired(hacker)[j] < |sys.courses|
    requires forall j :: 0 <= j < |Desired(hacker)| ==>
      hacker in Items(sys.courses[Desired(hacker)[j]].queue.nodes)
    ensures declined == DeclinedCount(sys.Views(), hacker.id, Desired(hacker))
  {
    ghost var vs := sys.Views();
    var cs := Desired(hacker);
    declined := 0;
    var j := 0;
    while j < |cs|
      invariant 0 <= j <= |cs|
      invariant declined == DeclinedCount(vs, hacker.id, cs[..j])
    {
      AdmissionCheckDefined(sys.courses[cs[j]].View(), hacker);
      var admitted := IsInCourse(hacker, sys.courses[cs[j]]);
      if !admitted {
        declined := declined + 1;
      }
      assert cs[..j + 1][..j] == cs[..j];
      j := j + 1;
    }
    assert cs[..j] == cs;
  }

  /** The test of hacker i, on the current queues: isInCourse on its only
      course, or a count of the desired courses that decline it. */
  method CheckHacker(sys: EnrollmentSystem, i: nat) returns (success: bool)
    requires sys.Valid() && i < |sys.hackers|
    requires HackersQueued(sys.Views(), sys.hackers)
    ensures success == Feasible(sys.Views(), sys.hackers[i])
  {
    var hacker := sys.hackers[i];
    var cs := Desired(hacker);
    assert forall j :: 0 <= j < |cs| ==> hacker in Items(sys.courses[cs[j]].queue.nodes);
    if |cs| == 1 {
      AdmissionCheckDefined(sys.courses[cs[0]].View(), hacker);
      success := IsInCourse(hacker, sys.courses[cs[0]]);
    } else {
      var declined := CountDeclined(sys, hacker);
      success := declined < 2;
    }
  }

  /** The feasibility loop of hackEnrollment: the first hacker, in roster
      order, that fails its test, if any. */
  method FindInfeasible(sys: EnrollmentSystem) returns (first: Option<nat>)
    requires sys.Valid()
    requires HackersQueued(sys.Views(), sys.hackers)
    ensures first == FirstInfeasible(sys.Views(), sys.hackers, 0)
  {
    ghost var vs := sys.Views();
    var i := 0;
    while i < |sys.hackers|
      invariant 0 <= i <= |sys.hackers|
      invariant FirstInfeasible(vs, sys.hackers, 0) == FirstInfeasible(vs, sys.hackers, i)
    {
      var success := CheckHacker(sys, i);
      assert sys.Views() == vs;
      if !success {
        return Some(i);
      }
      i := i + 1;
    }
    first := None;
  }

  /** The scorers added to every course. */
  function AllWithScorers(vs: seq<CourseView>, caseSensitive: bool): (r: seq<CourseView>)
    ensures |r| == |vs|
    ensures forall k :: 0 <= k < |vs| ==> r[k] == WithScorers(vs[k], caseSensitive)
  {
    seq(|vs|, k requires 0 <= k < |vs| => WithScorers(vs[k], caseSensitive))
  }

  /** The part of hackEnrollment after the scorers are registered: enqueue
      the hackers, then report the first hacker that fails its test or, when
      none does, every non-empty course. */
  method EnqueueAndReport(sys: EnrollmentSystem) returns (out: seq<string>)
    requires sys.Valid()
    modifies sys.Queues()
    ensures sys.Views() == EnqueueHackersSpec(old(sys.Views()), sys.hackers)
    ensures out == Report(sys.Views(), sys.hackers)
  {
    EnqueueHackers(sys);
    EnqueuedHackersQueued(old(sys.Views()), sys.hackers);
    var first := FindInfeasible(sys);
    if first.Some? {
      out := [FailureLine(sys.hackers[first.value].id)];
    } else {
      out := PrintSuccess(sys);
    }
  }

  /** hackEnrollment: register the scorers (stopping silently when that
      fails), enqueue the hackers, then test the hackers in roster order; the
      first that fails produces the failure line alone, otherwise every
      non-empty course gets its line. */
  method HackEnrollment(sys: EnrollmentSystem) returns (registered: bool, out: seq<string>)
    requires sys.Valid()
    modifies sys.Queues()
    ensures !registered ==> out == []
    ensures !registered ==>
      exists f :: StoppedAt(old(sys.Views()), sys.Views(), f, sys.caseSensitive)
    ensures registered ==>
      sys.Views() == EnqueueHackersSpec(AllWithScorers(old(sys.Views()), sys.caseSensitive), sys.hackers)
    ensures registered ==> out == Report(sys.Views(), sys.hackers)
  {
    registered := RegisterScorers(sys);
    if !registered {
      return false, [];
    }
    out := EnqueueAndReport(sys);
  }
}
