/**
 Small concrete runs of the matcher, each proved for every chooser that
 returns a member of the set it is given.
 */
module Scenarios {
  import opened Availability
  import opened Matcher

  const Mon10 := Record(Some("Mon"), Some("10:00"))
  const Tue9 := Record(Some("Tue"), Some("09:00"))

  /** A teacher whose records include the `Mon 10:00` slot can serve a student holding only that slot. */
  lemma Mon10Free(schedules: Schedules, t: TeacherId)
    requires t in schedules && schedules[t] == [Mon10]
    ensures Free(schedules, t, SlotSet([Mon10]), {}) == {Slot("Mon", "10:00")}
    ensures !Blocked(schedules, t, SlotSet([Mon10]), {})
  {
    assert Usable(Mon10) && SlotOf(Mon10) == Slot("Mon", "10:00");
    OneRecordSet(Mon10);
  }

  lemma OneRecordSet(r: Record)
    ensures SlotSet([r]) == if Usable(r) then {SlotOf(r)} else {}
  {
  }

  /** From a one-element set the chooser can only return that element. */
  lemma PickSingleton(pick: Chooser, k: nat, slot: Slot)
    requires ChoosesMember(pick)
    ensures pick(k, {slot}) == slot
  {
  }

  /** A run over one student is that student's outcome against no used slots. */
  lemma OneStudentRun(schedules: Schedules, s: Student, pick: Chooser)
    requires ChoosesMember(pick)
    ensures MatchAll(schedules, [s], pick) == OptionToSeq(Serve(schedules, s, 0, {}, pick))
  {
    assert [s][..0] == [];
    assert UsedSlots([]) == {};
  }

  /** Two students compete for the teacher's only slot: the first one processed gets it. */
  lemma FirstComerWins(pick: Chooser)
    requires ChoosesMember(pick)
    ensures MatchAll(map["T" := [Mon10]], [Student("S1", ["T"], [Mon10]), Student("S2", ["T"], [Mon10])], pick)
         == [Assignment("T", "S1", "Mon", "10:00")]
  {
    var students := [Student("S1", ["T"], [Mon10]), Student("S2", ["T"], [Mon10])];
    SharedSlotIsAssigned(pick, "S1");
    assert students[..1] == [Student("S1", ["T"], [Mon10])];
    var first := [Assignment("T", "S1", "Mon", "10:00")];
    assert first[0] in first;
    assert UsedSlots(first) == {Slot("Mon", "10:00")};
    OneRecordSet(Mon10);
    assert Blocked(map["T" := [Mon10]], "T", SlotSet([Mon10]), UsedSlots(first));
  }

  /** Teacher and student share exactly one slot: that slot is assigned. */
  lemma SharedSlotIsAssigned(pick: Chooser, id: StudentId)
    requires ChoosesMember(pick)
    ensures MatchAll(map["T" := [Mon10]], [Student(id, ["T"], [Mon10])], pick)
         == [Assignment("T", id, "Mon", "10:00")]
  {
    var schedules := map["T" := [Mon10]];
    var s := Student(id, ["T"], [Mon10]);
    OneStudentRun(schedules, s, pick);
    OneRecordSet(Mon10);
    PickSingleton(pick, 0, Slot("Mon", "10:00"));
    Mon10Free(schedules, "T");
    assert FirstFit(schedules, s.teachers, SlotSet([Mon10]), {}, 0) == Some(0);
  }

  /**
   One slot is shared by two teachers and two students, each student preferring a
   different teacher: the used slots are one set for the whole run, so the second
   student gets nothing even though the second teacher is free.
   */
  lemma UsedSlotsAreGlobal(pick: Chooser)
    requires ChoosesMember(pick)
    ensures MatchAll(map["T1" := [Mon10], "T2" := [Mon10]],
                     [Student("S1", ["T1"], [Mon10]), Student("S2", ["T2"], [Mon10])], pick)
         == [Assignment("T1", "S1", "Mon", "10:00")]
  {
    var schedules := map["T1" := [Mon10], "T2" := [Mon10]];
    var students := [Student("S1", ["T1"], [Mon10]), Student("S2", ["T2"], [Mon10])];
    OneRecordSet(Mon10);
    PickSingleton(pick, 0, Slot("Mon", "10:00"));
    assert students[..1] == [Student("S1", ["T1"], [Mon10])];
    OneStudentRun(schedules, students[0], pick);
    Mon10Free(schedules, "T1");
    assert FirstFit(schedules, ["T1"], SlotSet([Mon10]), {}, 0) == Some(0);
    var first := [Assignment("T1", "S1", "Mon", "10:00")];
    assert MatchAll(schedules, students[..1], pick) == first;
    assert first[0] in first;
    assert UsedSlots(first) == {Slot("Mon", "10:00")};
    assert Blocked(schedules, "T2", SlotSet([Mon10]), UsedSlots(first));
  }

  /** The first preferred teacher shares no slot: the second preferred teacher is assigned. */
  lemma SecondPreferenceUsed(pick: Chooser)
    requires ChoosesMember(pick)
    ensures MatchAll(map["A" := [Tue9], "B" := [Mon10]], [Student("S", ["A", "B"], [Mon10])], pick)
         == [Assignment("B", "S", "Mon", "10:00")]
  {
    var schedules := map["A" := [Tue9], "B" := [Mon10]];
    var s := Student("S", ["A", "B"], [Mon10]);
    OneStudentRun(schedules, s, pick);
    OneRecordSet(Mon10);
    OneRecordSet(Tue9);
    PickSingleton(pick, 0, Slot("Mon", "10:00"));
    assert Blocked(schedules, "A", SlotSet([Mon10]), {});
    Mon10Free(schedules, "B");
    assert FirstFit(schedules, s.teachers, SlotSet([Mon10]), {}, 0) == Some(1);
  }

  /** A preferred teacher without a schedule is skipped, not an error. */
  lemma UnscheduledTeacherSkipped(pick: Chooser)
    requires ChoosesMember(pick)
    ensures MatchAll(map["T" := [Mon10]], [Student("S", ["X", "T"], [Mon10])], pick)
         == [Assignment("T", "S", "Mon", "10:00")]
  {
    var schedules := map["T" := [Mon10]];
    var s := Student("S", ["X", "T"], [Mon10]);
    OneStudentRun(schedules, s, pick);
    OneRecordSet(Mon10);
    PickSingleton(pick, 0, Slot("Mon", "10:00"));
    Mon10Free(schedules, "T");
    assert FirstFit(schedules, s.teachers, SlotSet([Mon10]), {}, 0) == Some(1);
  }

  /** No overlap with any preferred teacher: no assignment, and no error. */
  lemma NoOverlapNoAssignment(pick: Chooser)
    requires ChoosesMember(pick)
    ensures MatchAll(map["T" := [Tue9]], [Student("S", ["T"], [Mon10])], pick) == []
  {
  }

  /** Records with an empty day never produce a slot, even when both sides hold them. */
  lemma EmptyDayIgnored(pick: Chooser)
    requires ChoosesMember(pick)
    ensures MatchAll(map["T" := [Record(Some(""), Some("10:00"))]],
                     [Student("S", ["T"], [Record(Some(""), Some("10:00")), Record(None, Some("10:00"))])], pick) == []
  {
  }
}
