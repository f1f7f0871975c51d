/**
 * What every outcome of the greedy scheduler guarantees, proved from the
 * schedule predicate that `Optimizer.GreedyAssign` establishes.
 */
module ScheduleProperties {
  import opened TimeslotOrder
  import opened Schedule

  /** Availability only ever shrinks: later free sets are subsets of earlier ones. */
  lemma {:induction false} AvailabilityShrinks(rooms: seq<Room>, timeslots: seq<Timeslot>, done: seq<Assignment>, i: nat)
    requires i <= |done|
    ensures forall r :: FreeIn(AvailabilityAfter(rooms, timeslots, done), r) <= FreeIn(AvailabilityAfter(rooms, timeslots, done[..i]), r)
    decreases |done|
  {
    if i == |done| {
      assert done[..i] == done;
    } else {
      var prefix := done[..|done| - 1];
      AvailabilityShrinks(rooms, timeslots, prefix, i);
      assert prefix[..i] == done[..i];
    }
  }

  /** A slot is only ever free if it is one of the input timeslots. */
  lemma FreeSlotsAreTimeslots(rooms: seq<Room>, timeslots: seq<Timeslot>, done: seq<Assignment>)
    ensures forall r, t :: t in FreeIn(AvailabilityAfter(rooms, timeslots, done), r) ==> t in timeslots
  {
    AvailabilityShrinks(rooms, timeslots, done, 0);
    assert done[..0] == [];
  }

  /**
   * One step either leaves the availability alone (unassigned course) or
   * removes exactly the chosen slot from the chosen room, and nothing else.
   */
  lemma StepConsumesOneSlot(rooms: seq<Room>, avail: Availability, c: Course, a: Assignment)
    requires IsGreedyStep(rooms, avail, c, a)
    ensures a.roomId.None? ==> Consume(avail, a) == avail
    ensures a.roomId.Some? ==>
      && a.timeslot.value in FreeIn(avail, a.roomId.value)
      && FreeIn(Consume(avail, a), a.roomId.value) == FreeIn(avail, a.roomId.value) - {a.timeslot.value}
      && |FreeIn(Consume(avail, a), a.roomId.value)| == |FreeIn(avail, a.roomId.value)| - 1
    ensures forall r :: a.roomId != Some(r) ==> FreeIn(Consume(avail, a), r) == FreeIn(avail, r)
  {
  }

  /** A course is left unassigned exactly when no big-enough room has a free slot. */
  lemma UnassignedIffNoRoomFree(rooms: seq<Room>, avail: Availability, c: Course, a: Assignment)
    requires IsGreedyStep(rooms, avail, c, a)
    ensures a.roomId.None? <==> NoRoomFree(rooms, avail, c.predictedStudents)
  {
    if a.roomId.Some? {
      var j: int :| IsChosenRoom(rooms, avail, c.predictedStudents, j) && rooms[j].id == a.roomId.value;
      assert !NoRoomFree(rooms, avail, c.predictedStudents) by {
        assert FreeIn(avail, rooms[j].id) != {};
      }
    }
  }

  /** The earliest free slot of a room is unique, so the slot choice is deterministic. */
  lemma LeastSlotUnique(t1: Timeslot, t2: Timeslot, free: set<Timeslot>)
    requires IsLeastSlot(t1, free) && IsLeastSlot(t2, free)
    ensures t1 == t2
  {
    StrLeAntisymmetric(t1, t2);
  }

  /** An assigned room has room for the course. */
  lemma CapacityRespected(courses: seq<Course>, rooms: seq<Room>, timeslots: seq<Timeslot>, out: seq<Assignment>)
    requires IsGreedySchedule(courses, rooms, timeslots, out)
    ensures forall i :: 0 <= i < |out| && out[i].roomId.Some? ==>
      exists k :: 0 <= k < |rooms| && rooms[k].id == out[i].roomId.value && out[i].predictedStudents <= rooms[k].capacity
  {
    var order: seq<Course> :| IsProcessingOrder(courses, order) && IsGreedyRun(rooms, timeslots, order, out);
    forall i | 0 <= i < |out| && out[i].roomId.Some?
      ensures exists k :: 0 <= k < |rooms| && rooms[k].id == out[i].roomId.value && out[i].predictedStudents <= rooms[k].capacity
    {
      var avail := AvailabilityAfter(rooms, timeslots, out[..i]);
      RunStep(rooms, timeslots, order, out, i);
      var j: int :| IsChosenRoom(rooms, avail, order[i].predictedStudents, j) && rooms[j].id == out[i].roomId.value;
    }
  }

  /** An assigned timeslot is one of the input timeslots. */
  lemma AssignedSlotIsTimeslot(courses: seq<Course>, rooms: seq<Room>, timeslots: seq<Timeslot>, out: seq<Assignment>)
    requires IsGreedySchedule(courses, rooms, timeslots, out)
    ensures forall i :: 0 <= i < |out| && out[i].timeslot.Some? ==> out[i].timeslot.value in timeslots
  {
    var order: seq<Course> :| IsProcessingOrder(courses, order) && IsGreedyRun(rooms, timeslots, order, out);
    forall i | 0 <= i < |out| && out[i].timeslot.Some?
      ensures out[i].timeslot.value in timeslots
    {
      RunStep(rooms, timeslots, order, out, i);
      FreeSlotsAreTimeslots(rooms, timeslots, out[..i]);
    }
  }

  /** No (room, timeslot) pair is handed out twice. */
  lemma NoDoubleBooking(courses: seq<Course>, rooms: seq<Room>, timeslots: seq<Timeslot>, out: seq<Assignment>)
    requires IsGreedySchedule(courses, rooms, timeslots, out)
    ensures forall i, j :: 0 <= i < j < |out| && out[i].roomId.Some? && out[i].roomId == out[j].roomId ==>
      out[i].timeslot != out[j].timeslot
  {
    var order: seq<Course> :| IsProcessingOrder(courses, order) && IsGreedyRun(rooms, timeslots, order, out);
    forall i, j | 0 <= i < j < |out| && out[i].roomId.Some? && out[i].roomId == out[j].roomId
      ensures out[i].timeslot != out[j].timeslot
    {
      var availI := AvailabilityAfter(rooms, timeslots, out[..i]);
      RunStep(rooms, timeslots, order, out, i);
      var r, t := out[i].roomId.value, out[i].timeslot.value;
      // Right after step i the slot is gone from room r ...
      assert out[..i + 1][..i] == out[..i];
      StepConsumesOneSlot(rooms, availI, order[i], out[i]);
      assert t !in FreeIn(AvailabilityAfter(rooms, timeslots, out[..i + 1]), r);
      // ... and it never comes back, so step j cannot find it free.
      AvailabilityShrinks(rooms, timeslots, out[..j], i + 1);
      assert out[..j][..i + 1] == out[..i + 1];
      RunStep(rooms, timeslots, order, out, j);
    }
  }

  /**
   * A record is unassigned exactly when, at its turn, no room big enough for
   * the course has a free slot left.
   */
  lemma UnassignedExactlyWhenFull(courses: seq<Course>, rooms: seq<Room>, timeslots: seq<Timeslot>, out: seq<Assignment>)
    requires IsGreedySchedule(courses, rooms, timeslots, out)
    ensures forall i :: 0 <= i < |out| ==>
      (out[i].roomId.None? <==> NoRoomFree(rooms, AvailabilityAfter(rooms, timeslots, out[..i]), out[i].predictedStudents))
  {
    var order: seq<Course> :| IsProcessingOrder(courses, order) && IsGreedyRun(rooms, timeslots, order, out);
    forall i | 0 <= i < |out|
      ensures out[i].roomId.None? <==> NoRoomFree(rooms, AvailabilityAfter(rooms, timeslots, out[..i]), out[i].predictedStudents)
    {
      RunStep(rooms, timeslots, order, out, i);
      UnassignedIffNoRoomFree(rooms, AvailabilityAfter(rooms, timeslots, out[..i]), order[i], out[i]);
    }
  }

  /** A course bigger than every room is never placed. */
  lemma OversizedCourseUnassigned(courses: seq<Course>, rooms: seq<Room>, timeslots: seq<Timeslot>, out: seq<Assignment>, i: int)
    requires IsGreedySchedule(courses, rooms, timeslots, out)
    requires 0 <= i < |out|
    requires forall k :: 0 <= k < |rooms| ==> rooms[k].capacity < out[i].predictedStudents
    ensures out[i].roomId.None? && out[i].timeslot.None?
  {
    var order: seq<Course> :| IsProcessingOrder(courses, order) && IsGreedyRun(rooms, timeslots, order, out);
    var avail := AvailabilityAfter(rooms, timeslots, out[..i]);
    RunStep(rooms, timeslots, order, out, i);
    UnassignedIffNoRoomFree(rooms, avail, order[i], out[i]);
  }

  /** With no rooms, or no timeslots, every course is unassigned. */
  lemma NoRoomsOrNoSlotsAllUnassigned(courses: seq<Course>, rooms: seq<Room>, timeslots: seq<Timeslot>, out: seq<Assignment>)
    requires IsGreedySchedule(courses, rooms, timeslots, out)
    requires rooms == [] || timeslots == []
    ensures forall i :: 0 <= i < |out| ==> out[i].roomId.None? && out[i].timeslot.None?
  {
    var order: seq<Course> :| IsProcessingOrder(courses, order) && IsGreedyRun(rooms, timeslots, order, out);
    forall i | 0 <= i < |out|
      ensures out[i].roomId.None? && out[i].timeslot.None?
    {
      var avail := AvailabilityAfter(rooms, timeslots, out[..i]);
      RunStep(rooms, timeslots, order, out, i);
      FreeSlotsAreTimeslots(rooms, timeslots, out[..i]);
      assert NoRoomFree(rooms, avail, order[i].predictedStudents) by {
        if timeslots == [] {
          forall k | 0 <= k < |rooms|
            ensures FreeIn(avail, rooms[k].id) == {}
          {
            assert forall t :: t in FreeIn(avail, rooms[k].id) ==> t in timeslots;
          }
        }
      }
      UnassignedIffNoRoomFree(rooms, avail, order[i], out[i]);
    }
  }

  /** Records come out largest predicted size first. */
  lemma OutputLargestFirst(courses: seq<Course>, rooms: seq<Room>, timeslots: seq<Timeslot>, out: seq<Assignment>)
    requires IsGreedySchedule(courses, rooms, timeslots, out)
    ensures forall i, j :: 0 <= i < j < |out| ==> out[i].predictedStudents >= out[j].predictedStudents
  {
    var order: seq<Course> :| IsProcessingOrder(courses, order) && IsGreedyRun(rooms, timeslots, order, out);
    forall i, j | 0 <= i < j < |out|
      ensures out[i].predictedStudents >= out[j].predictedStudents
    {
      RunStep(rooms, timeslots, order, out, i);
      RunStep(rooms, timeslots, order, out, j);
    }
  }

  function CourseData(c: Course): (string, string, int)
  {
    (c.id, c.name, c.predictedStudents)
  }

  function RecordData(a: Assignment): (string, string, int)
  {
    (a.courseId, a.courseName, a.predictedStudents)
  }

  function MapSeq<T, U>(s: seq<T>, f: T -> U): (r: seq<U>)
    ensures |r| == |s| && forall i :: 0 <= i < |s| ==> r[i] == f(s[i])
  {
    seq(|s|, i requires 0 <= i < |s| => f(s[i]))
  }

  lemma MapConcat<T, U>(u: seq<T>, v: seq<T>, f: T -> U)
    ensures MapSeq(u + v, f) == MapSeq(u, f) + MapSeq(v, f)
  {
  }

  /** Removing the element at `k` removes one copy of it from the multiset. */
  lemma RemoveAt<T>(b: seq<T>, k: int)
    requires 0 <= k < |b|
    ensures multiset(b[..k] + b[k + 1..]) == multiset(b) - multiset{b[k]}
  {
    assert b == b[..k] + [b[k]] + b[k + 1..];
  }

  /** Mapping over a sequence maps the element at `k` and, separately, the rest. */
  lemma MapRemoveAt<T, U>(b: seq<T>, k: int, f: T -> U)
    requires 0 <= k < |b|
    ensures multiset(MapSeq(b, f)) == multiset(MapSeq(b[..k] + b[k + 1..], f)) + multiset{f(b[k])}
  {
    assert b == b[..k] + [b[k]] + b[k + 1..];
    MapConcat(b[..k] + [b[k]], b[k + 1..], f);
    MapConcat(b[..k], [b[k]], f);
    MapConcat(b[..k], b[k + 1..], f);
  }

  /** Mapping a function over two permutations of each other gives two permutations of each other. */
  lemma {:induction false} MapPreservesPermutation<T, U>(a: seq<T>, b: seq<T>, f: T -> U)
    requires multiset(a) == multiset(b)
    ensures multiset(MapSeq(a, f)) == multiset(MapSeq(b, f))
    decreases |a|
  {
    if |a| == 0 {
      assert |b| == |multiset(b)| == 0;
    } else {
      var x := a[0];
      assert x in multiset(b);
      var k :| 0 <= k < |b| && b[k] == x;
      var a', b' := a[..0] + a[1..], b[..k] + b[k + 1..];
      RemoveAt(a, 0);
      RemoveAt(b, k);
      MapPreservesPermutation(a', b', f);
      calc {
        multiset(MapSeq(a, f));
        { MapRemoveAt(a, 0, f); }
        multiset(MapSeq(a', f)) + multiset{f(x)};
        multiset(MapSeq(b', f)) + multiset{f(x)};
        { MapRemoveAt(b, k, f); }
        multiset(MapSeq(b, f));
      }
    }
  }

  /**
   * The records are the courses, each once, with their own id, name and
   * predicted size: one record per course, none dropped, none invented.
   */
  lemma OneRecordPerCourse(courses: seq<Course>, rooms: seq<Room>, timeslots: seq<Timeslot>, out: seq<Assignment>)
    requires IsGreedySchedule(courses, rooms, timeslots, out)
    ensures |out| == |courses|
    ensures multiset(MapSeq(out, RecordData)) == multiset(MapSeq(courses, CourseData))
  {
    var order: seq<Course> :| IsProcessingOrder(courses, order) && IsGreedyRun(rooms, timeslots, order, out);
    assert |order| == |multiset(order)| == |courses|;
    forall i | 0 <= i < |out|
      ensures RecordData(out[i]) == CourseData(order[i])
    {
      RunStep(rooms, timeslots, order, out, i);
    }
    assert MapSeq(out, RecordData) == MapSeq(order, CourseData);
    MapPreservesPermutation(order, courses, CourseData);
  }

  /** Emitting record `i` turns the availability before it into the availability after it. */
  lemma AvailabilityStep(rooms: seq<Room>, timeslots: seq<Timeslot>, out: seq<Assignment>, i: int)
    requires 0 <= i < |out|
    ensures AvailabilityAfter(rooms, timeslots, out[..i + 1]) == Consume(AvailabilityAfter(rooms, timeslots, out[..i]), out[i])
  {
    assert out[..i + 1][..i] == out[..i];
  }

  /** Emitting a record changes the free slots of its own room only, and only by its own slot. */
  lemma ConsumeFreeIn(avail: Availability, a: Assignment, r: RoomId)
    ensures FreeIn(Consume(avail, a), r) ==
      if a.roomId == Some(r) && a.timeslot.Some? then FreeIn(avail, r) - {a.timeslot.value} else FreeIn(avail, r)
  {
  }

  /** Three courses of distinct sizes have exactly one largest-first processing order. */
  lemma ScenarioOrder(big: Course, mid: Course, small: Course, order: seq<Course>)
    requires big.predictedStudents == 40 && mid.predictedStudents == 20 && small.predictedStudents == 10
    requires IsProcessingOrder([big, mid, small], order)
    ensures order == [big, mid, small]
  {
    assert |order| == |multiset(order)| == 3;
    assert big in multiset(order) && mid in multiset(order) && small in multiset(order);
    var b :| 0 <= b < 3 && order[b] == big;
    var m :| 0 <= m < 3 && order[m] == mid;
    var s :| 0 <= s < 3 && order[s] == small;
  }

  /** At the start both rooms have the one timeslot free. */
  lemma ScenarioStart(r30: RoomId, r50: RoomId, slot: Timeslot)
    ensures FreeIn(InitialAvailability([Room(r30, 30), Room(r50, 50)], [slot]), r30) == {slot}
    ensures FreeIn(InitialAvailability([Room(r30, 30), Room(r50, 50)], [slot]), r50) == {slot}
  {
    var rooms := [Room(r30, 30), Room(r50, 50)];
    assert r30 == rooms[0].id && r50 == rooms[1].id;
    assert r30 in RoomIds(rooms) && r50 in RoomIds(rooms);
  }

  /** First step of the scenario: only the 50-seat room fits 40 students, and it takes the slot. */
  lemma ScenarioBigStep(r30: RoomId, r50: RoomId, slot: Timeslot, avail: Availability, c: Course, a: Assignment)
    requires r30 != r50
    requires c.predictedStudents == 40 && FreeIn(avail, r30) == {slot} && FreeIn(avail, r50) == {slot}
    requires IsGreedyStep([Room(r30, 30), Room(r50, 50)], avail, c, a)
    ensures a == Assignment(c.id, c.name, Some(r50), Some(slot), 40)
    ensures FreeIn(Consume(avail, a), r30) == {slot} && FreeIn(Consume(avail, a), r50) == {}
  {
    var rooms := [Room(r30, 30), Room(r50, 50)];
    UnassignedIffNoRoomFree(rooms, avail, c, a);
    assert a.roomId.Some? by {
      assert !NoRoomFree(rooms, avail, 40) by {
        assert FreeIn(avail, rooms[1].id) != {};
      }
    }
    var j: int :| IsChosenRoom(rooms, avail, 40, j) && rooms[j].id == a.roomId.value;
    ConsumeFreeIn(avail, a, r30);
    ConsumeFreeIn(avail, a, r50);
    assert {slot} - {slot} == {};
  }

  /** Second step: the 50-seat room is full, the 30-seat room is the smallest that fits 20. */
  lemma ScenarioMidStep(r30: RoomId, r50: RoomId, slot: Timeslot, avail: Availability, c: Course, a: Assignment)
    requires c.predictedStudents == 20 && FreeIn(avail, r30) == {slot} && FreeIn(avail, r50) == {}
    requires IsGreedyStep([Room(r30, 30), Room(r50, 50)], avail, c, a)
    ensures a == Assignment(c.id, c.name, Some(r30), Some(slot), 20)
    ensures FreeIn(Consume(avail, a), r30) == {} && FreeIn(Consume(avail, a), r50) == {}
  {
    var rooms := [Room(r30, 30), Room(r50, 50)];
    UnassignedIffNoRoomFree(rooms, avail, c, a);
    assert a.roomId.Some? by {
      assert !NoRoomFree(rooms, avail, 20) by {
        assert FreeIn(avail, rooms[0].id) != {};
      }
    }
    var j: int :| IsChosenRoom(rooms, avail, 20, j) && rooms[j].id == a.roomId.value;
    ConsumeFreeIn(avail, a, r30);
    ConsumeFreeIn(avail, a, r50);
    assert {slot} - {slot} == {};
  }

  /** Third step: no room has a free slot left. */
  lemma ScenarioSmallStep(r30: RoomId, r50: RoomId, avail: Availability, c: Course, a: Assignment)
    requires c.predictedStudents == 10 && FreeIn(avail, r30) == {} && FreeIn(avail, r50) == {}
    requires IsGreedyStep([Room(r30, 30), Room(r50, 50)], avail, c, a)
    ensures a == Assignment(c.id, c.name, None, None, 10)
  {
    UnassignedIffNoRoomFree([Room(r30, 30), Room(r50, 50)], avail, c, a);
  }

  /** The scenario's run, once the processing order is known to be 40, 20, 10. */
  lemma ScenarioRun(r30: RoomId, r50: RoomId, slot: Timeslot, big: Course, mid: Course, small: Course, out: seq<Assignment>)
    requires r30 != r50
    requires big.predictedStudents == 40 && mid.predictedStudents == 20 && small.predictedStudents == 10
    requires IsGreedyRun([Room(r30, 30), Room(r50, 50)], [slot], [big, mid, small], out)
    ensures |out| == 3
    ensures out[0] == Assignment(big.id, big.name, Some(r50), Some(slot), 40)
    ensures out[1] == Assignment(mid.id, mid.name, Some(r30), Some(slot), 20)
    ensures out[2] == Assignment(small.id, small.name, None, None, 10)
  {
    var rooms, timeslots, order := [Room(r30, 30), Room(r50, 50)], [slot], [big, mid, small];
    assert out[..0] == [];
    ScenarioStart(r30, r50, slot);
    RunStep(rooms, timeslots, order, out, 0);
    ScenarioBigStep(r30, r50, slot, AvailabilityAfter(rooms, timeslots, out[..0]), big, out[0]);

    AvailabilityStep(rooms, timeslots, out, 0);
    RunStep(rooms, timeslots, order, out, 1);
    ScenarioMidStep(r30, r50, slot, AvailabilityAfter(rooms, timeslots, out[..1]), mid, out[1]);

    AvailabilityStep(rooms, timeslots, out, 1);
    RunStep(rooms, timeslots, order, out, 2);
    ScenarioSmallStep(r30, r50, AvailabilityAfter(rooms, timeslots, out[..2]), small, out[2]);
  }

  /**
   * Two rooms (30 and 50 seats), one timeslot, three courses of 40, 20 and
   * 10 students: the 40 goes to the 50-seat room, the 20 to the 30-seat room,
   * and the 10 finds no free slot left.
   */
  lemma TwoRoomsOneSlotScenario(r30: RoomId, r50: RoomId, slot: Timeslot,
                                big: Course, mid: Course, small: Course, out: seq<Assignment>)
    requires r30 != r50
    requires big.predictedStudents == 40 && mid.predictedStudents == 20 && small.predictedStudents == 10
    requires IsGreedySchedule([big, mid, small], [Room(r30, 30), Room(r50, 50)], [slot], out)
    ensures |out| == 3
    ensures out[0] == Assignment(big.id, big.name, Some(r50), Some(slot), 40)
    ensures out[1] == Assignment(mid.id, mid.name, Some(r30), Some(slot), 20)
    ensures out[2] == Assignment(small.id, small.name, None, None, 10)
  {
    var order: seq<Course> :| IsProcessingOrder([big, mid, small], order)
      && IsGreedyRun([Room(r30, 30), Room(r50, 50)], [slot], order, out);
    ScenarioOrder(big, mid, small, order);
    ScenarioRun(r30, r50, slot, big, mid, small, out);
  }
}
