/**
 * The appointment collection the booking controller writes to: records with
 * an auto-assigned id, and a unique index on (docId, scheduleTime) that makes
 * an insert colliding with an existing record fail with the duplicate-key
 * error, code 11000.
 */
module AppointmentStore {
  import opened Wrappers
  import opened Instants

  /** One stored appointment; `roomId` is `None` (null) until it is assigned. */
  datatype Appointment = Appointment(id: nat, patientId: string, docId: string, scheduleTime: int, roomId: Option<nat>)

  const DuplicateKeyCode: int := 11000

  /** Why a write failed: the unique index, an invalid date refused by the cast to Date, or anything else. */
  datatype StoreError = DuplicateKey | CastError | WriteFailed
  {
    /** The driver's numeric error code, where there is one. */
    function Code(): Option<int>
    {
      if DuplicateKey? then Some(DuplicateKeyCode) else None
    }
  }

  /** Some record of doctor `docId` is at instant `t`. */
  predicate SlotTaken(records: seq<Appointment>, docId: string, t: int)
  {
    exists i :: 0 <= i < |records| && records[i].docId == docId && records[i].scheduleTime == t
  }

  /** The unique index: no two records share a doctor and an instant. */
  predicate UniqueSlots(records: seq<Appointment>)
  {
    forall i, j :: 0 <= i < j < |records| ==>
      records[i].docId != records[j].docId || records[i].scheduleTime != records[j].scheduleTime
  }

  predicate DistinctIds(records: seq<Appointment>)
  {
    forall i, j :: 0 <= i < j < |records| ==> records[i].id != records[j].id
  }

  /** The records that `keep` selects, as a query returns them; no order is promised beyond the multiset. */
  function Where(records: seq<Appointment>, keep: Appointment -> bool): (r: seq<Appointment>)
    ensures forall a :: a in r <==> a in records && keep(a)
    ensures forall a :: multiset(r)[a] == if keep(a) then multiset(records)[a] else 0
  {
    if |records| == 0 then []
    else
      var rest := Where(records[1..], keep);
      assert records == [records[0]] + records[1..];
      if keep(records[0]) then [records[0]] + rest else rest
  }

  /** The query for doctor `docId` at instant `t`. */
  function RecordsAt(records: seq<Appointment>, docId: string, t: int): seq<Appointment>
  {
    Where(records, (a: Appointment) => a.docId == docId && a.scheduleTime == t)
  }

  /** Under the unique index at most one record answers a query for one doctor at one instant. */
  lemma {:induction false} AtMostOneAtSlot(records: seq<Appointment>, docId: string, t: int)
    requires UniqueSlots(records)
    ensures |RecordsAt(records, docId, t)| <= 1
    ensures |RecordsAt(records, docId, t)| == 1 <==> SlotTaken(records, docId, t)
  {
    var keep := (a: Appointment) => a.docId == docId && a.scheduleTime == t;
    if |records| > 0 {
      var tail := records[1..];
      assert UniqueSlots(tail) by {
        forall i, j | 0 <= i < j < |tail|
          ensures tail[i].docId != tail[j].docId || tail[i].scheduleTime != tail[j].scheduleTime
        {
          assert tail[i] == records[i + 1] && tail[j] == records[j + 1];
        }
      }
      AtMostOneAtSlot(tail, docId, t);
      assert SlotTaken(records, docId, t) <==> keep(records[0]) || SlotTaken(tail, docId, t) by {
        if SlotTaken(tail, docId, t) {
          var i :| 0 <= i < |tail| && tail[i].docId == docId && tail[i].scheduleTime == t;
          assert records[i + 1] == tail[i];
        }
        if SlotTaken(records, docId, t) && !keep(records[0]) {
          var i :| 0 <= i < |records| && records[i].docId == docId && records[i].scheduleTime == t;
          assert tail[i - 1] == records[i];
        }
      }
    }
  }

  /** The collection, with its id generator. */
  class Collection {
    var records: seq<Appointment>
    var nextId: nat

    ghost predicate Valid()
      reads this
    {
      && UniqueSlots(records)
      && DistinctIds(records)
      && forall i :: 0 <= i < |records| ==> records[i].id < nextId
    }

    constructor ()
      ensures Valid() && records == []
    {
      records := [];
      nextId := 0;
    }

    /**
     * `Appointment.create({patientId, docId, scheduleTime, roomId: null})`.
     * An invalid date (`None`) fails the cast; otherwise a write failure
     * (`writeFails`) or the unique index may refuse the insert; otherwise the
     * record is appended with a fresh id.
     */
    method Create(patientId: string, docId: string, scheduleTime: Option<int>, writeFails: bool)
      returns (r: Result<Appointment, StoreError>)
      requires Valid()
      modifies this
      ensures Valid()
      ensures scheduleTime.None? ==> r == Failure(CastError)
      ensures scheduleTime.Some? && writeFails ==> r == Failure(WriteFailed)
      ensures scheduleTime.Some? && !writeFails && SlotTaken(old(records), docId, scheduleTime.value) ==>
        r == Failure(DuplicateKey)
      ensures scheduleTime.Some? && !writeFails && !SlotTaken(old(records), docId, scheduleTime.value) ==>
        && r == Success(Appointment(old(nextId), patientId, docId, scheduleTime.value, None))
        && records == old(records) + [r.value]
      ensures r.Failure? ==> records == old(records)
      ensures nextId >= old(nextId)
    {
      if scheduleTime.None? {
        return Failure(CastError);
      }
      if writeFails {
        return Failure(WriteFailed);
      }
      var t := scheduleTime.value;
      var i := 0;
      while i < |records|
        invariant 0 <= i <= |records|
        invariant forall j :: 0 <= j < i ==> records[j].docId != docId || records[j].scheduleTime != t
      {
        if records[i].docId == docId && records[i].scheduleTime == t {
          return Failure(DuplicateKey);
        }
        i := i + 1;
      }
      var a := Appointment(nextId, patientId, docId, t, None);
      records := records + [a];
      nextId := nextId + 1;
      return Success(a);
    }

    /**
     * `appointment.roomId = appointment._id.toString(); appointment.save()`:
     * sets the room id of the record with id `id`, unless the write fails.
     */
    method SaveRoomId(id: nat, roomId: nat, writeFails: bool) returns (saved: bool)
      requires Valid()
      modifies this
      ensures Valid() && nextId == old(nextId)
      ensures saved == (!writeFails && exists i :: 0 <= i < |old(records)| && old(records)[i].id == id)
      ensures |records| == |old(records)|
      ensures forall i :: 0 <= i < |records| ==>
        records[i] == if saved && old(records)[i].id == id then old(records)[i].(roomId := Some(roomId)) else old(records)[i]
    {
      if writeFails {
        return false;
      }
      var i := 0;
      while i < |records|
        invariant 0 <= i <= |records|
        invariant forall j :: 0 <= j < i ==> records[j].id != id
      {
        if records[i].id == id {
          records := records[i := records[i].(roomId := Some(roomId))];
          return true;
        }
        i := i + 1;
      }
      return false;
    }
  }
}
