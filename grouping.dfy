/**
 Grouping of the flat match list by teacher, and the per-teacher collection of
 match documents written from it (one document per student, holding the day
 and time).
 */
module Grouping {
  import opened Availability
  import opened Matcher

  /** One grouped entry `{student, day, time}`; the teacher is the group's key. */
  datatype Entry = Entry(student: StudentId, day: string, time: string)

  function EntryOf(a: Assignment): Entry
  {
    Entry(a.student, a.day, a.time)
  }

  /** The teachers that appear in a list of assignments. */
  function TeachersOf(m: seq<Assignment>): set<TeacherId>
  {
    set a | a in m :: a.teacher
  }

  /** Teacher `t`'s entries, in the order of the flat list. */
  function EntriesFor(m: seq<Assignment>, t: TeacherId): (es: seq<Entry>)
    ensures |es| <= |m|
    decreases |m|
  {
    if m == [] then []
    else
      var n := |m| - 1;
      EntriesFor(m[..n], t) + (if m[n].teacher == t then [EntryOf(m[n])] else [])
  }

  lemma TeachersOfAppend(m: seq<Assignment>, a: Assignment)
    ensures TeachersOf(m + [a]) == TeachersOf(m) + {a.teacher}
  {
  }

  /** A teacher has entries exactly when some assignment names that teacher. */
  lemma {:induction false} EntriesForEmpty(m: seq<Assignment>, t: TeacherId)
    ensures EntriesFor(m, t) == [] <==> t !in TeachersOf(m)
    decreases |m|
  {
    if m != [] {
      var n := |m| - 1;
      assert m == m[..n] + [m[n]];
      EntriesForEmpty(m[..n], t);
      TeachersOfAppend(m[..n], m[n]);
    }
  }

  /** Every grouped entry comes from an assignment of that very teacher. */
  lemma {:induction false} EntriesForSource(m: seq<Assignment>, t: TeacherId, p: nat)
    requires p < |EntriesFor(m, t)|
    ensures exists j :: 0 <= j < |m| && m[j].teacher == t && EntryOf(m[j]) == EntriesFor(m, t)[p]
    decreases |m|
  {
    var n := |m| - 1;
    var head := EntriesFor(m[..n], t);
    if p < |head| {
      EntriesForSource(m[..n], t, p);
      var j :| 0 <= j < n && m[..n][j].teacher == t && EntryOf(m[..n][j]) == head[p];
      assert m[..n][j] == m[j];
    } else {
      assert m[n].teacher == t && EntryOf(m[n]) == EntriesFor(m, t)[p];
    }
  }

  /** The entries of a prefix of the flat list are a prefix of the entries of the whole list. */
  lemma {:induction false} EntriesForPrefix(m: seq<Assignment>, k: nat, t: TeacherId)
    requires k <= |m|
    ensures |EntriesFor(m[..k], t)| <= |EntriesFor(m, t)|
    ensures EntriesFor(m, t)[..|EntriesFor(m[..k], t)|] == EntriesFor(m[..k], t)
    decreases |m| - k
  {
    if k == |m| {
      assert m[..k] == m;
    } else {
      EntriesForPrefix(m, k + 1, t);
      assert m[..k + 1][..k] == m[..k];
    }
  }

  /** Position of assignment `k`'s entry inside its teacher's list. */
  function Position(m: seq<Assignment>, k: nat): (p: nat)
    requires k < |m|
    ensures p <= k
  {
    |EntriesFor(m[..k], m[k].teacher)|
  }

  /** Assignment `k`'s entry sits in its own teacher's list, at Position(m, k). */
  lemma OwnEntryAt(m: seq<Assignment>, k: nat)
    requires k < |m|
    ensures Position(m, k) < |EntriesFor(m, m[k].teacher)|
    ensures EntriesFor(m, m[k].teacher)[Position(m, k)] == EntryOf(m[k])
  {
    var t := m[k].teacher;
    EntriesForPrefix(m, k + 1, t);
    assert m[..k + 1][..k] == m[..k];
    assert EntriesFor(m[..k + 1], t) == EntriesFor(m[..k], t) + [EntryOf(m[k])];
  }

  /** Two assignments of one teacher keep their relative order in that teacher's list. */
  lemma OrderKept(m: seq<Assignment>, i: nat, k: nat)
    requires i < k < |m|
    requires m[i].teacher == m[k].teacher
    ensures Position(m, i) < Position(m, k)
  {
    var t := m[k].teacher;
    OwnEntryAt(m[..k], i);
    assert m[..k][i] == m[i];
    assert m[..k][..i] == m[..i];
  }

  /**
   When no two assignments share a slot, an entry found in teacher `t`'s list
   comes from an assignment of `t`, so it is in no other teacher's list.
   */
  lemma EntryNotInOtherList(m: seq<Assignment>, k: nat, t: TeacherId)
    requires SlotsDistinct(m)
    requires k < |m|
    requires EntryOf(m[k]) in EntriesFor(m, t)
    ensures t == m[k].teacher
  {
    var p :| 0 <= p < |EntriesFor(m, t)| && EntriesFor(m, t)[p] == EntryOf(m[k]);
    EntriesForSource(m, t, p);
    var j :| 0 <= j < |m| && m[j].teacher == t && EntryOf(m[j]) == EntriesFor(m, t)[p];
    assert SlotOfAssignment(m[j]) == SlotOfAssignment(m[k]);
    assert j == k;
  }

  /**
   When no two assignments share a slot, an assignment's entry appears in a
   teacher's list exactly when that teacher is its own: it lands in one list only.
   */
  lemma EntryInOwnListOnly(m: seq<Assignment>, k: nat, t: TeacherId)
    requires SlotsDistinct(m)
    requires k < |m|
    ensures EntryOf(m[k]) in EntriesFor(m, t) <==> t == m[k].teacher
  {
    if EntryOf(m[k]) in EntriesFor(m, t) {
      EntryNotInOtherList(m, k, t);
    }
    OwnEntryAt(m, k);
  }

  /** Builds the teacher -> entries map from the flat list, appending in list order. */
  method GroupByTeacher(m: seq<Assignment>) returns (grouped: map<TeacherId, seq<Entry>>)
    ensures grouped.Keys == TeachersOf(m)
    ensures forall t :: t in grouped ==> grouped[t] == EntriesFor(m, t)
  {
    grouped := map[];
    for i := 0 to |m|
      invariant grouped.Keys == TeachersOf(m[..i])
      invariant forall t :: t in grouped ==> grouped[t] == EntriesFor(m[..i], t)
    {
      var a := m[i];
      assert m[..i + 1] == m[..i] + [a];
      TeachersOfAppend(m[..i], a);
      if a.teacher !in grouped {
        EntriesForEmpty(m[..i], a.teacher);
        grouped := grouped[a.teacher := []];
      }
      grouped := grouped[a.teacher := grouped[a.teacher] + [EntryOf(a)]];
    }
    assert m[..|m|] == m;
  }

  ghost predicate DistinctStudents(es: seq<Entry>)
  {
    forall i, j :: 0 <= i < j < |es| ==> es[i].student != es[j].student
  }

  /**
   The documents of one teacher's collection, starting from an empty collection,
   after writing each entry keyed by its student: every written student has a
   document, and there are never more documents than entries.
   */
  function TeacherDocuments(es: seq<Entry>): (d: map<StudentId, Slot>)
    ensures forall i :: 0 <= i < |es| ==> es[i].student in d
    ensures |d| <= |es|
    decreases |es|
  {
    if es == [] then map[]
    else
      var n := |es| - 1;
      TeacherDocuments(es[..n])[es[n].student := Slot(es[n].day, es[n].time)]
  }

  /**
   With distinct students no write overwrites another: starting from an empty
   collection, there is one document per entry, each intact.
   */
  lemma {:induction false} NoDocumentLost(es: seq<Entry>)
    requires DistinctStudents(es)
    ensures |TeacherDocuments(es)| == |es|
    ensures forall i :: 0 <= i < |es| ==>
              es[i].student in TeacherDocuments(es)
              && TeacherDocuments(es)[es[i].student] == Slot(es[i].day, es[i].time)
    decreases |es|
  {
    if es != [] {
      var n := |es| - 1;
      var prefix := es[..n];
      assert DistinctStudents(prefix) by {
        forall i, j | 0 <= i < j < |prefix| ensures prefix[i].student != prefix[j].student {
          assert prefix[i] == es[i] && prefix[j] == es[j];
        }
      }
      NoDocumentLost(prefix);
      var before := TeacherDocuments(prefix);
      assert es[n].student !in before by {
        if es[n].student in before {
          StoredComesFromEntry(prefix, es[n].student);
        }
      }
      assert TeacherDocuments(es) == before[es[n].student := Slot(es[n].day, es[n].time)];
      forall i | 0 <= i < |es|
        ensures es[i].student in TeacherDocuments(es)
        ensures TeacherDocuments(es)[es[i].student] == Slot(es[i].day, es[i].time)
      {
        if i < n {
          assert es[i] == prefix[i];
        }
      }
    }
  }

  lemma {:induction false} StoredComesFromEntry(es: seq<Entry>, s: StudentId)
    requires s in TeacherDocuments(es)
    ensures exists i :: 0 <= i < |es| && es[i].student == s
    decreases |es|
  {
    var n := |es| - 1;
    if es[n].student != s {
      StoredComesFromEntry(es[..n], s);
      var i :| 0 <= i < n && es[..n][i].student == s;
      assert es[i] == es[..n][i];
    }
  }

  /** Distinct students in the flat list stay distinct inside each teacher's list. */
  lemma {:induction false} EntriesForDistinctStudents(m: seq<Assignment>, t: TeacherId)
    requires OnePerStudent(m)
    ensures DistinctStudents(EntriesFor(m, t))
    decreases |m|
  {
    if m != [] {
      var n := |m| - 1;
      var prefix := m[..n];
      forall i, j | 0 <= i < j < |prefix| ensures prefix[i].student != prefix[j].student {
        assert prefix[i] == m[i] && prefix[j] == m[j];
      }
      EntriesForDistinctStudents(prefix, t);
      var head := EntriesFor(prefix, t);
      var es := EntriesFor(m, t);
      forall i, j | 0 <= i < j < |es| ensures es[i].student != es[j].student {
        if j < |head| {
          assert es[i] == head[i] && es[j] == head[j];
        } else {
          assert es[j] == EntryOf(m[n]);
          assert es[i] == head[i];
          EntriesForSource(prefix, t, i);
          var q :| 0 <= q < n && prefix[q].teacher == t && EntryOf(prefix[q]) == head[i];
          assert prefix[q] == m[q];
        }
      }
    }
  }

  /**
   When no student appears twice, writing each teacher's grouped entries keyed
   by student keeps one intact document per assignment: starting from an empty
   collection, the teacher's collection holds as many documents as the teacher
   has assignments, and assignment `k`'s day and time sit under its student's key.
   */
  lemma WritesKeepEverything(m: seq<Assignment>, k: nat)
    requires OnePerStudent(m)
    requires k < |m|
    ensures |TeacherDocuments(EntriesFor(m, m[k].teacher))| == |EntriesFor(m, m[k].teacher)|
    ensures m[k].student in TeacherDocuments(EntriesFor(m, m[k].teacher))
    ensures TeacherDocuments(EntriesFor(m, m[k].teacher))[m[k].student] == SlotOfAssignment(m[k])
  {
    var t := m[k].teacher;
    EntriesForDistinctStudents(m, t);
    NoDocumentLost(EntriesFor(m, t));
    OwnEntryAt(m, k);
  }

  /** Every run of the matcher over students with distinct ids meets WritesKeepEverything. */
  lemma MatchedWritesKeepEverything(schedules: Schedules, students: seq<Student>, pick: Chooser)
    requires ChoosesMember(pick)
    requires DistinctIds(students)
    ensures OnePerStudent(MatchAll(schedules, students, pick))
    ensures forall k :: 0 <= k < |MatchAll(schedules, students, pick)| ==>
              var m := MatchAll(schedules, students, pick);
              m[k].student in TeacherDocuments(EntriesFor(m, m[k].teacher))
              && TeacherDocuments(EntriesFor(m, m[k].teacher))[m[k].student] == SlotOfAssignment(m[k])
  {
    OneAssignmentPerStudent(schedules, students, pick);
    var m := MatchAll(schedules, students, pick);
    forall k | 0 <= k < |m|
      ensures m[k].student in TeacherDocuments(EntriesFor(m, m[k].teacher))
      ensures TeacherDocuments(EntriesFor(m, m[k].teacher))[m[k].student] == SlotOfAssignment(m[k])
    {
      WritesKeepEverything(m, k);
    }
  }
}
