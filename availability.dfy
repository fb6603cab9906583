/**
 Availability documents and the set of (day, time) slots they describe.

 A stored availability document is a small record with a `day` and a `time`
 field. Either field may be absent, and a present field may hold the empty
 string; the matcher treats both as "falsy" and ignores such a record.
 */
module Availability {

  datatype Option<T> = None | Some(value: T)

  type TeacherId = string
  type StudentId = string

  /** One `{day, time}` availability document; a field may be missing. */
  datatype Record = Record(day: Option<string>, time: Option<string>)

  /** A `(day, time)` pair, the unit the matcher hands out. */
  datatype Slot = Slot(day: string, time: string)

  /** Truthiness of a field value: the falsy values are a missing field and the empty string. */
  predicate Truthy(v: Option<string>): (b: bool)
    ensures b <==> v !in {None, Some("")}
  {
    v.Some? && v.value != ""
  }

  /** A record contributes a slot only when both its day and its time are truthy. */
  predicate Usable(r: Record): (b: bool)
    ensures b <==> r.day !in {None, Some("")} && r.time !in {None, Some("")}
  {
    Truthy(r.day) && Truthy(r.time)
  }

  /** The slot a usable record spells out; the record is recovered from it. */
  function SlotOf(r: Record): (s: Slot)
    requires Usable(r)
    ensures s.day != "" && s.time != ""
    ensures r == Record(Some(s.day), Some(s.time))
  {
    Slot(r.day.value, r.time.value)
  }

  /** The set comprehension that turns a list of records into available slots. */
  function SlotSet(records: seq<Record>): (s: set<Slot>)
    ensures forall slot :: slot in s ==> slot.day != "" && slot.time != ""
    ensures forall i :: 0 <= i < |records| && Usable(records[i]) ==> SlotOf(records[i]) in s
  {
    set r | r in records && Usable(r) :: SlotOf(r)
  }

  /** A slot is available exactly when some record spells it out with non-empty fields. */
  lemma SlotSetMembership(records: seq<Record>, slot: Slot)
    ensures slot in SlotSet(records) <==>
      exists i :: 0 <= i < |records| && records[i] == Record(Some(slot.day), Some(slot.time))
                  && slot.day != "" && slot.time != ""
  {
    if slot in SlotSet(records) {
      var r :| r in records && Usable(r) && SlotOf(r) == slot;
      var i :| 0 <= i < |records| && records[i] == r;
      assert records[i] == Record(Some(slot.day), Some(slot.time));
    }
    if exists i :: 0 <= i < |records| && records[i] == Record(Some(slot.day), Some(slot.time))
                  && slot.day != "" && slot.time != "" {
      var i :| 0 <= i < |records| && records[i] == Record(Some(slot.day), Some(slot.time))
               && slot.day != "" && slot.time != "";
      assert records[i] in records && Usable(records[i]) && SlotOf(records[i]) == slot;
    }
  }

  /** No slot of the set has an empty day or an empty time. */
  lemma SlotSetNonEmptyFields(records: seq<Record>, slot: Slot)
    requires slot in SlotSet(records)
    ensures slot.day != "" && slot.time != ""
  {
  }

  /** Appending one record adds its slot if it is usable and nothing otherwise. */
  lemma SlotSetAppend(records: seq<Record>, r: Record)
    ensures SlotSet(records + [r]) == SlotSet(records) + (if Usable(r) then {SlotOf(r)} else {})
  {
  }

  /** A record with an empty or missing field never changes the available set. */
  lemma UnusableRecordIgnored(records: seq<Record>, r: Record)
    requires !Usable(r)
    ensures SlotSet(records + [r]) == SlotSet(records)
    ensures SlotSet([r] + records) == SlotSet(records)
  {
  }

  /**
   Builds a student's available slots record by record, skipping records whose
   day or time is missing or empty; the result is the same set the teacher's
   comprehension builds.
   */
  method AvailableTimes(records: seq<Record>) returns (times: set<Slot>)
    ensures times == SlotSet(records)
  {
    times := {};
    for i := 0 to |records|
      invariant times == SlotSet(records[..i])
    {
      var item := records[i];
      assert records[..i + 1] == records[..i] + [item];
      SlotSetAppend(records[..i], item);
      if item.day.Some? && item.day.value != "" && item.time.Some? && item.time.value != "" {
        times := times + {Slot(item.day.value, item.time.value)};
      }
    }
    assert records[..|records|] == records;
  }
}
