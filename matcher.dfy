/**
 The greedy slot matcher of `generate_schedule`.

 Students are processed in order. For each one, the preferred teachers are tried
 in preference order; a teacher without a schedule is skipped; otherwise the
 free slots are the student's slots intersected with the teacher's slots, minus
 the slots already handed out in this run. The first teacher with a free slot
 gets one of them (an arbitrary one) and the student is done.

 The set of used slots is ONE set for the whole run, shared by all teachers.

 The arbitrary element returned by `set.pop()` is modelled by a chooser
 `pick(k, available)`, where `k` is the position of the student being served.
 Every property below holds for every chooser that returns a member of the set
 it is given; since `pop` is called at most once per student, every run of
 `generate_schedule` corresponds to some such chooser.
 */
module Matcher {
  import opened Availability

  /** Each teacher's stored availability records for the month. */
  type Schedules = map<TeacherId, seq<Record>>

  /** One loaded student: id, preferred teachers (most preferred first), availability records. */
  datatype Student = Student(id: StudentId, teachers: seq<TeacherId>, schedule: seq<Record>)

  /** One output match `{teacher, student, day, time}`. */
  datatype Assignment = Assignment(teacher: TeacherId, student: StudentId, day: string, time: string)

  type Chooser = (nat, set<Slot>) -> Slot

  /** The chooser behaves like `set.pop()`: from a non-empty set it returns a member. */
  ghost predicate ChoosesMember(pick: Chooser)
  {
    forall k: nat, s: set<Slot> :: s != {} ==> pick(k, s) in s
  }

  function SlotOfAssignment(a: Assignment): Slot
  {
    Slot(a.day, a.time)
  }

  /** The `(day, time)` pairs handed out by a list of assignments. */
  function UsedSlots(m: seq<Assignment>): (s: set<Slot>)
    ensures forall i :: 0 <= i < |m| ==> SlotOfAssignment(m[i]) in s
  {
    set a | a in m :: SlotOfAssignment(a)
  }

  /** No two assignments share a `(day, time)` pair. */
  ghost predicate SlotsDistinct(m: seq<Assignment>)
  {
    forall i, j :: 0 <= i < j < |m| ==> SlotOfAssignment(m[i]) != SlotOfAssignment(m[j])
  }

  /** No student appears in two assignments. */
  ghost predicate OnePerStudent(m: seq<Assignment>)
  {
    forall i, j :: 0 <= i < j < |m| ==> m[i].student != m[j].student
  }

  ghost predicate DistinctIds(students: seq<Student>)
  {
    forall i, j :: 0 <= i < j < |students| ==> students[i].id != students[j].id
  }

  /** Slots teacher `t` could still give a student with `times`, given the `used` slots. */
  function Free(schedules: Schedules, t: TeacherId, times: set<Slot>, used: set<Slot>): (f: set<Slot>)
    requires t in schedules
    ensures f <= times && f <= SlotSet(schedules[t]) && f !! used
    ensures forall x :: x in times && x in SlotSet(schedules[t]) && x !in used ==> x in f
  {
    (times * SlotSet(schedules[t])) - used
  }

  /** Teacher `t` cannot serve: no schedule entry, or no free overlapping slot. */
  predicate Blocked(schedules: Schedules, t: TeacherId, times: set<Slot>, used: set<Slot>): (b: bool)
    ensures b <==> t !in schedules || forall x :: x in times && x in SlotSet(schedules[t]) ==> x in used
  {
    t !in schedules || Free(schedules, t, times, used) == {}
  }

  /**
   Position of the first preferred teacher at or after `from` who is not blocked:
   the result is the least such position, or None when there is none.
   */
  function FirstFit(schedules: Schedules, prefs: seq<TeacherId>, times: set<Slot>, used: set<Slot>,
                    from: nat): (r: Option<nat>)
    requires from <= |prefs|
    ensures r.Some? ==> from <= r.value < |prefs| && !Blocked(schedules, prefs[r.value], times, used)
    ensures r.Some? ==> forall i :: from <= i < r.value ==> Blocked(schedules, prefs[i], times, used)
    ensures r.None? <==> forall i :: from <= i < |prefs| ==> Blocked(schedules, prefs[i], times, used)
    decreases |prefs| - from
  {
    if from == |prefs| then None
    else if !Blocked(schedules, prefs[from], times, used) then Some(from)
    else FirstFit(schedules, prefs, times, used, from + 1)
  }

  /** Assignment `a` is one the matcher may hand to student `s`. */
  ghost predicate Fits(schedules: Schedules, s: Student, a: Assignment)
  {
    a.student == s.id && a.teacher in s.teachers && a.teacher in schedules
    && SlotOfAssignment(a) in SlotSet(s.schedule)
    && SlotOfAssignment(a) in SlotSet(schedules[a.teacher])
  }

  /**
   What serving student `s` (at position `k`) yields when `used` slots are taken:
   a match with the first unblocked preferred teacher, or nothing.
   */
  function Serve(schedules: Schedules, s: Student, k: nat, used: set<Slot>, pick: Chooser): (r: Option<Assignment>)
    requires ChoosesMember(pick)
    ensures r.Some? ==> Fits(schedules, s, r.value) && SlotOfAssignment(r.value) !in used
    ensures r.Some? ==> exists j :: 0 <= j < |s.teachers| && s.teachers[j] == r.value.teacher
                          && forall i :: 0 <= i < j ==> Blocked(schedules, s.teachers[i], SlotSet(s.schedule), used)
    ensures r.None? <==> forall i :: 0 <= i < |s.teachers| ==> Blocked(schedules, s.teachers[i], SlotSet(s.schedule), used)
  {
    var times := SlotSet(s.schedule);
    match FirstFit(schedules, s.teachers, times, used, 0)
    case None => None
    case Some(j) =>
      var t := s.teachers[j];
      var slot := pick(k, Free(schedules, t, times, used));
      Some(Assignment(t, s.id, slot.day, slot.time))
  }

  function OptionToSeq(o: Option<Assignment>): seq<Assignment>
  {
    if o.Some? then [o.value] else []
  }

  /** The whole run: students in order, each served against the slots used so far. */
  function MatchAll(schedules: Schedules, students: seq<Student>, pick: Chooser): (m: seq<Assignment>)
    requires ChoosesMember(pick)
    ensures |m| <= |students|
    decreases |students|
  {
    if students == [] then []
    else
      var k := |students| - 1;
      var prev := MatchAll(schedules, students[..k], pick);
      prev + OptionToSeq(Serve(schedules, students[k], k, UsedSlots(prev), pick))
  }

  lemma UsedSlotsAppend(m: seq<Assignment>, extra: seq<Assignment>)
    ensures UsedSlots(m + extra) == UsedSlots(m) + UsedSlots(extra)
  {
  }

  /** Unfolding of MatchAll at student `k`: the run up to `k + 1` extends the run up to `k`. */
  lemma MatchAllUnfold(schedules: Schedules, students: seq<Student>, k: nat, pick: Chooser)
    requires ChoosesMember(pick)
    requires k < |students|
    ensures MatchAll(schedules, students[..k + 1], pick)
         == MatchAll(schedules, students[..k], pick)
            + OptionToSeq(Serve(schedules, students[k], k, UsedSlots(MatchAll(schedules, students[..k], pick)), pick))
  {
    assert students[..k + 1][..k] == students[..k];
  }

  /**
   The two possible outcomes of serving student `s` when the run so far is
   `before`: either nothing was appended and every preferred teacher was blocked
   (so the used slots are unchanged), or exactly one assignment was appended,
   for that student, inside both availabilities, on a slot not yet used, with
   the first preferred teacher that was not blocked.
   */
  ghost predicate Outcome(schedules: Schedules, s: Student, before: seq<Assignment>, after: seq<Assignment>)
  {
    var times := SlotSet(s.schedule);
    var used := UsedSlots(before);
    (after == before && UsedSlots(after) == used
     && forall i :: 0 <= i < |s.teachers| ==> Blocked(schedules, s.teachers[i], times, used))
    ||
    (|after| == |before| + 1 && after[..|before|] == before
     && Fits(schedules, s, after[|before|]) && SlotOfAssignment(after[|before|]) !in used
     && UsedSlots(after) == used + {SlotOfAssignment(after[|before|])}
     && exists j :: 0 <= j < |s.teachers| && s.teachers[j] == after[|before|].teacher
          && forall i :: 0 <= i < j ==> Blocked(schedules, s.teachers[i], times, used))
  }

  /** Appending the result of Serve to any run is one of the two outcomes. */
  lemma ServeOutcome(schedules: Schedules, s: Student, k: nat, before: seq<Assignment>, pick: Chooser)
    requires ChoosesMember(pick)
    ensures Outcome(schedules, s, before, before + OptionToSeq(Serve(schedules, s, k, UsedSlots(before), pick)))
  {
  }

  /** What happened to student `k` in the run is one of the two outcomes. */
  lemma StudentOutcome(schedules: Schedules, students: seq<Student>, k: nat, pick: Chooser)
    requires ChoosesMember(pick)
    requires k < |students|
    ensures Outcome(schedules, students[k], MatchAll(schedules, students[..k], pick),
                    MatchAll(schedules, students[..k + 1], pick))
  {
    MatchAllUnfold(schedules, students, k, pick);
    ServeOutcome(schedules, students[k], k, MatchAll(schedules, students[..k], pick), pick);
  }

  /** Some student of `students` may be handed assignment `a`. */
  ghost predicate Produced(schedules: Schedules, students: seq<Student>, a: Assignment)
  {
    exists k :: 0 <= k < |students| && Fits(schedules, students[k], a)
  }

  /** Every assignment lies in the overlap of its student's and its teacher's availability. */
  lemma {:induction false} MatchAllFits(schedules: Schedules, students: seq<Student>, pick: Chooser)
    requires ChoosesMember(pick)
    ensures forall a :: a in MatchAll(schedules, students, pick) ==> Produced(schedules, students, a)
    decreases |students|
  {
    if students != [] {
      var last := |students| - 1;
      var prev := MatchAll(schedules, students[..last], pick);
      MatchAllFits(schedules, students[..last], pick);
      var m := MatchAll(schedules, students, pick);
      var r := Serve(schedules, students[last], last, UsedSlots(prev), pick);
      assert m == prev + OptionToSeq(r);
      forall a | a in m ensures Produced(schedules, students, a) {
        if a in prev {
          var k :| 0 <= k < last && Fits(schedules, students[..last][k], a);
          assert students[..last][k] == students[k];
        } else {
          assert a == r.value;
          assert Fits(schedules, students[last], a);
        }
      }
    }
  }

  /** No `(day, time)` pair is handed out twice, whatever the teachers. */
  lemma {:induction false} MatchAllSlotsDistinct(schedules: Schedules, students: seq<Student>, pick: Chooser)
    requires ChoosesMember(pick)
    ensures SlotsDistinct(MatchAll(schedules, students, pick))
    decreases |students|
  {
    if students != [] {
      var k := |students| - 1;
      var prev := MatchAll(schedules, students[..k], pick);
      MatchAllSlotsDistinct(schedules, students[..k], pick);
      var m := MatchAll(schedules, students, pick);
      var r := Serve(schedules, students[k], k, UsedSlots(prev), pick);
      assert m == prev + OptionToSeq(r);
      forall i, j | 0 <= i < j < |m| ensures SlotOfAssignment(m[i]) != SlotOfAssignment(m[j]) {
        if j < |prev| {
          assert m[i] == prev[i] && m[j] == prev[j];
        } else {
          assert r.Some? && j == |prev|;
          assert m[j] == r.value && m[i] == prev[i];
          assert SlotOfAssignment(r.value) !in UsedSlots(prev);
          assert prev[i] in prev;
          assert SlotOfAssignment(prev[i]) in UsedSlots(prev);
        }
      }
    }
  }

  /** A list of assignments with distinct slots uses exactly as many slots as it has entries. */
  lemma {:induction false} UsedSlotsCount(m: seq<Assignment>)
    requires SlotsDistinct(m)
    ensures |UsedSlots(m)| == |m|
    decreases |m|
  {
    if m != [] {
      var n := |m| - 1;
      assert m == m[..n] + [m[n]];
      LastSlotIsNew(m);
      UsedSlotsCount(m[..n]);
      UsedSlotsAppend(m[..n], [m[n]]);
      assert UsedSlots([m[n]]) == {SlotOfAssignment(m[n])};
    }
  }

  /** In a list with distinct slots, the last slot is not used by the earlier entries. */
  lemma LastSlotIsNew(m: seq<Assignment>)
    requires SlotsDistinct(m)
    requires m != []
    ensures SlotsDistinct(m[..|m| - 1])
    ensures SlotOfAssignment(m[|m| - 1]) !in UsedSlots(m[..|m| - 1])
  {
  }

  /** Some student at position `from` or later has id `id`. */
  ghost predicate LaterStudent(students: seq<Student>, from: nat, id: StudentId)
  {
    exists j :: from <= j < |students| && students[j].id == id
  }

  /**
   Output order follows processing order: the run over the first `k` students is
   a prefix of the whole run, and every later assignment belongs to a student at
   position `k` or after.
   */
  lemma {:induction false} MatchAllPrefix(schedules: Schedules, students: seq<Student>, k: nat, pick: Chooser)
    requires ChoosesMember(pick)
    requires k <= |students|
    ensures RunPrefix(MatchAll(schedules, students[..k], pick), MatchAll(schedules, students, pick), students, k)
    decreases |students| - k
  {
    if k == |students| {
      assert students[..k] == students;
    } else {
      MatchAllPrefix(schedules, students, k + 1, pick);
      StepExtends(schedules, students, k, pick);
      PrefixStep(MatchAll(schedules, students[..k], pick), MatchAll(schedules, students[..k + 1], pick),
                 MatchAll(schedules, students, pick), students, k);
    }
  }

  /** `head` starts `m`, and every assignment of `m` after it belongs to a student at position `k` or later. */
  ghost predicate RunPrefix(head: seq<Assignment>, m: seq<Assignment>, students: seq<Student>, k: nat)
  {
    |head| <= |m| && m[..|head|] == head
    && forall i :: |head| <= i < |m| ==> LaterStudent(students, k, m[i].student)
  }

  lemma PrefixStep(head: seq<Assignment>, next: seq<Assignment>, m: seq<Assignment>, students: seq<Student>, k: nat)
    requires k < |students|
    requires ExtendsByOne(head, next, students[k].id)
    requires RunPrefix(next, m, students, k + 1)
    ensures RunPrefix(head, m, students, k)
  {
  }

  /** Serving student `k` keeps the run so far and appends at most one assignment, for that student. */
  lemma StepExtends(schedules: Schedules, students: seq<Student>, k: nat, pick: Chooser)
    requires ChoosesMember(pick)
    requires k < |students|
    ensures ExtendsByOne(MatchAll(schedules, students[..k], pick), MatchAll(schedules, students[..k + 1], pick), students[k].id)
  {
    MatchAllUnfold(schedules, students, k, pick);
  }

  /** `next` is `head` followed by at most one assignment, which is for student `id`. */
  ghost predicate ExtendsByOne(head: seq<Assignment>, next: seq<Assignment>, id: StudentId)
  {
    |head| <= |next| <= |head| + 1 && next[..|head|] == head
    && (|next| == |head| + 1 ==> next[|head|].student == id)
  }

  /** Each student appears in at most one assignment. */
  lemma OneAssignmentPerStudent(schedules: Schedules, students: seq<Student>, pick: Chooser)
    requires ChoosesMember(pick)
    requires DistinctIds(students)
    ensures OnePerStudent(MatchAll(schedules, students, pick))
  {
    var m := MatchAll(schedules, students, pick);
    forall i, j | 0 <= i < j < |m| ensures m[i].student != m[j].student {
      var k := OwnerOf(schedules, students, pick, j);
      var k' := EarlierOwner(schedules, students, pick, k, i);
    }
  }

  /** Assignment `j` of the run was made at step `k`, for student `k`. */
  lemma OwnerOf(schedules: Schedules, students: seq<Student>, pick: Chooser, j: nat) returns (k: nat)
    requires ChoosesMember(pick)
    requires j < |MatchAll(schedules, students, pick)|
    ensures k < |students| && |MatchAll(schedules, students[..k], pick)| == j
    ensures MatchAll(schedules, students, pick)[j].student == students[k].id
  {
    k := StepOf(schedules, students, pick, j);
    MatchAllPrefix(schedules, students, k + 1, pick);
    StepExtends(schedules, students, k, pick);
    var next := MatchAll(schedules, students[..k + 1], pick);
    assert MatchAll(schedules, students, pick)[..|next|] == next;
    assert next[j] == MatchAll(schedules, students, pick)[j];
  }

  /** An assignment made before step `k` is for a student at a position before `k`. */
  lemma EarlierOwner(schedules: Schedules, students: seq<Student>, pick: Chooser, k: nat, i: nat) returns (k': nat)
    requires ChoosesMember(pick)
    requires k <= |students| && i < |MatchAll(schedules, students[..k], pick)|
    ensures k' < k && i < |MatchAll(schedules, students, pick)|
    ensures MatchAll(schedules, students, pick)[i].student == students[k'].id
  {
    MatchAllPrefix(schedules, students, k, pick);
    var head := MatchAll(schedules, students[..k], pick);
    MatchAllFits(schedules, students[..k], pick);
    assert head[i] in head;
    k' :| 0 <= k' < |students[..k]| && Fits(schedules, students[..k][k'], head[i]);
    assert students[..k][k'] == students[k'];
    assert head[i] == MatchAll(schedules, students, pick)[i];
  }

  /** The step `k` whose student received assignment `j`: the run over `k` students ends before `j`. */
  lemma StepOf(schedules: Schedules, students: seq<Student>, pick: Chooser, j: nat) returns (k: nat)
    requires ChoosesMember(pick)
    requires j < |MatchAll(schedules, students, pick)|
    ensures k < |students|
    ensures |MatchAll(schedules, students[..k], pick)| == j
    ensures |MatchAll(schedules, students[..k + 1], pick)| == j + 1
  {
    var ls := RunLengths(schedules, students, pick);
    assert students[..0] == [];
    assert students[..|students|] == students;
    forall i | 0 <= i < |students| ensures ls[i] <= ls[i + 1] <= ls[i] + 1 {
      LengthStep(schedules, students, pick, i);
    }
    k := Crossing(ls, j);
  }

  /** Serving one student lengthens the run by zero or one. */
  lemma LengthStep(schedules: Schedules, students: seq<Student>, pick: Chooser, i: nat)
    requires ChoosesMember(pick)
    requires i < |students|
    ensures |MatchAll(schedules, students[..i], pick)| <= |MatchAll(schedules, students[..i + 1], pick)|
                                                       <= |MatchAll(schedules, students[..i], pick)| + 1
  {
    StepExtends(schedules, students, i, pick);
  }

  /** The lengths of the runs over the first `0, 1, ..., |students|` students. */
  ghost function RunLengths(schedules: Schedules, students: seq<Student>, pick: Chooser): (ls: seq<nat>)
    requires ChoosesMember(pick)
    ensures |ls| == |students| + 1
    ensures forall k :: 0 <= k <= |students| ==> ls[k] == |MatchAll(schedules, students[..k], pick)|
  {
    seq(|students| + 1, k requires 0 <= k <= |students| => |MatchAll(schedules, students[..k], pick)|)
  }

  /** A count that starts at or below `j`, ends above it and grows by at most one per step passes `j` at some step. */
  lemma {:induction false} Crossing(ls: seq<nat>, j: nat) returns (k: nat)
    requires |ls| >= 1 && ls[0] <= j < ls[|ls| - 1]
    requires forall i :: 0 <= i < |ls| - 1 ==> ls[i] <= ls[i + 1] <= ls[i] + 1
    ensures k < |ls| - 1 && ls[k] == j && ls[k + 1] == j + 1
    decreases |ls|
  {
    var n := |ls| - 1;
    if ls[n - 1] <= j {
      k := n - 1;
    } else {
      k := Crossing(ls[..n], j);
    }
  }

  /**
   The body of the student loop: builds the student's available times, tries the
   preferred teachers in order, skipping those without a schedule, and on the
   first free overlapping slot records it as used, appends the match and stops.
   */
  method MatchStudent(schedules: Schedules, s: Student, k: nat, pick: Chooser,
                      matched: seq<Assignment>, used: set<Slot>)
    returns (matched': seq<Assignment>, used': set<Slot>)
    requires ChoosesMember(pick)
    ensures matched' == matched + OptionToSeq(Serve(schedules, s, k, used, pick))
    ensures used' == used + UsedSlots(OptionToSeq(Serve(schedules, s, k, used, pick)))
  {
    matched', used' := matched, used;
    var times := AvailableTimes(s.schedule);
    var i := 0;
    while i < |s.teachers|
      invariant 0 <= i <= |s.teachers|
      invariant matched' == matched && used' == used
      invariant FirstFit(schedules, s.teachers, times, used, i) == FirstFit(schedules, s.teachers, times, used, 0)
    {
      var t := s.teachers[i];
      if t in schedules {
        var teacherTimes := SlotSet(schedules[t]);
        var common := times * teacherTimes;
        var available := common - used';
        if available != {} {
          var slot := pick(k, available);
          assert Serve(schedules, s, k, used, pick) == Some(Assignment(t, s.id, slot.day, slot.time));
          assert UsedSlots([Assignment(t, s.id, slot.day, slot.time)]) == {slot};
          used' := used' + {slot};
          matched' := matched' + [Assignment(t, s.id, slot.day, slot.time)];
          break;
        }
      }
      i := i + 1;
    }
    if matched' == matched {
      assert matched + [] == matched;
      assert UsedSlots([]) == {};
    }
  }

  /** The matching loop: every student in order, against one run-wide set of used slots. */
  method GenerateMatches(schedules: Schedules, students: seq<Student>, pick: Chooser)
    returns (matched: seq<Assignment>, used: set<Slot>)
    requires ChoosesMember(pick)
    ensures matched == MatchAll(schedules, students, pick)
    ensures used == UsedSlots(matched)
    ensures SlotsDistinct(matched)
    ensures |used| == |matched|
  {
    matched := [];
    used := {};
    var k := 0;
    while k < |students|
      invariant k <= |students|
      invariant matched == MatchAll(schedules, students[..k], pick)
      invariant used == UsedSlots(matched)
    {
      ghost var before := matched;
      matched, used := MatchStudent(schedules, students[k], k, pick, matched, used);
      UsedSlotsAppend(before, OptionToSeq(Serve(schedules, students[k], k, UsedSlots(before), pick)));
      MatchAllUnfold(schedules, students, k, pick);
      k := k + 1;
    }
    assert students[..k] == students;
    MatchAllSlotsDistinct(schedules, students, pick);
    UsedSlotsCount(matched);
  }
}
