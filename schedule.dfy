/**
 * The entities the greedy scheduler works on, and what it means for a list
 * of assignment records to be an outcome of the greedy placement.
 */
module Schedule {
  import opened TimeslotOrder

  datatype Option<T> = None | Some(value: T)

  type RoomId = string
  type Timeslot = string

  /** A row of the courses table; `duration` is read but never used for placement. */
  datatype Course = Course(id: string, name: string, predictedStudents: int, duration: int)

  /** A row of the rooms table. */
  datatype Room = Room(id: RoomId, capacity: int)

  /** One output record; an unassigned course has neither room nor timeslot. */
  datatype Assignment = Assignment(
    courseId: string,
    courseName: string,
    roomId: Option<RoomId>,
    timeslot: Option<Timeslot>,
    predictedStudents: int)

  /** The free timeslots left in each room, keyed by room id. */
  type Availability = map<RoomId, set<Timeslot>>

  function RoomIds(rooms: seq<Room>): set<RoomId>
  {
    set room | room in rooms :: room.id
  }

  /** Every room starts with every timeslot free. */
  function InitialAvailability(rooms: seq<Room>, timeslots: seq<Timeslot>): (avail: Availability)
    ensures avail.Keys == RoomIds(rooms)
    ensures forall r :: r in avail ==> forall t :: t in avail[r] <==> t in timeslots
  {
    map r | r in RoomIds(rooms) :: set t | t in timeslots
  }

  /** The free slots of room `r` (none for a room the map does not know). */
  ghost function FreeIn(avail: Availability, r: RoomId): set<Timeslot>
  {
    if r in avail then avail[r] else {}
  }

  /** The effect of one record on the availability: an assigned slot is no longer free. */
  ghost function Consume(avail: Availability, a: Assignment): Availability
  {
    if a.roomId.Some? && a.timeslot.Some? && a.roomId.value in avail then
      avail[a.roomId.value := avail[a.roomId.value] - {a.timeslot.value}]
    else
      avail
  }

  /** The availability once the records in `done` have been emitted, in that order. */
  ghost function AvailabilityAfter(rooms: seq<Room>, timeslots: seq<Timeslot>, done: seq<Assignment>): Availability
    decreases |done|
  {
    if done == [] then InitialAvailability(rooms, timeslots)
    else Consume(AvailabilityAfter(rooms, timeslots, done[..|done| - 1]), done[|done| - 1])
  }

  ghost predicate IsLeastSlot(t: Timeslot, free: set<Timeslot>)
  {
    t in free && forall u :: u in free ==> StrLe(t, u)
  }

  /** No room big enough for `needed` students has a free slot left. */
  ghost predicate NoRoomFree(rooms: seq<Room>, avail: Availability, needed: int)
  {
    forall k :: 0 <= k < |rooms| && needed <= rooms[k].capacity ==> FreeIn(avail, rooms[k].id) == {}
  }

  /**
   * Row `j` may be the room the greedy scan settles on: it is big enough, it
   * still has a free slot, and every big-enough room of strictly smaller
   * capacity is full. (Among rooms of equal capacity the unstable sort may put
   * any one first.)
   */
  ghost predicate IsChosenRoom(rooms: seq<Room>, avail: Availability, needed: int, j: int)
  {
    && 0 <= j < |rooms|
    && needed <= rooms[j].capacity
    && FreeIn(avail, rooms[j].id) != {}
    && forall k :: 0 <= k < |rooms| && needed <= rooms[k].capacity < rooms[j].capacity ==>
         FreeIn(avail, rooms[k].id) == {}
  }

  /** `a` is a record the greedy scan may emit for course `c` when the availability is `avail`. */
  ghost predicate IsGreedyStep(rooms: seq<Room>, avail: Availability, c: Course, a: Assignment)
  {
    && a.courseId == c.id
    && a.courseName == c.name
    && a.predictedStudents == c.predictedStudents
    && (a.roomId.None? <==> a.timeslot.None?)
    && (a.roomId.None? ==> NoRoomFree(rooms, avail, c.predictedStudents))
    && (a.roomId.Some? ==>
          && (exists j :: IsChosenRoom(rooms, avail, c.predictedStudents, j) && rooms[j].id == a.roomId.value)
          && IsLeastSlot(a.timeslot.value, FreeIn(avail, a.roomId.value)))
  }

  /** `order` is the courses, largest predicted size first, ties in any order. */
  ghost predicate IsProcessingOrder(courses: seq<Course>, order: seq<Course>)
  {
    && multiset(order) == multiset(courses)
    && forall i, j :: 0 <= i < j < |order| ==> order[i].predictedStudents >= order[j].predictedStudents
  }

  /** Record `i` of `out` is a greedy step for `order[i]` from the availability the earlier records left. */
  ghost predicate StepAt(rooms: seq<Room>, timeslots: seq<Timeslot>, order: seq<Course>, out: seq<Assignment>, i: int)
    requires 0 <= i < |out| && |out| == |order|
  {
    IsGreedyStep(rooms, AvailabilityAfter(rooms, timeslots, out[..i]), order[i], out[i])
  }

  /** Every record of `out` is a greedy step for the course at the same position of `order`. */
  ghost predicate IsGreedyRun(rooms: seq<Room>, timeslots: seq<Timeslot>, order: seq<Course>, out: seq<Assignment>)
  {
    && |out| == |order|
    && forall i :: 0 <= i < |out| ==> StepAt(rooms, timeslots, order, out, i)
  }

  /** Record `i` of a greedy run is a greedy step from the availability the earlier records left. */
  lemma RunStep(rooms: seq<Room>, timeslots: seq<Timeslot>, order: seq<Course>, out: seq<Assignment>, i: int)
    requires IsGreedyRun(rooms, timeslots, order, out) && 0 <= i < |out|
    ensures IsGreedyStep(rooms, AvailabilityAfter(rooms, timeslots, out[..i]), order[i], out[i])
  {
    assert StepAt(rooms, timeslots, order, out, i);
  }

  /** `out` is a possible result of the greedy scheduler on these inputs. */
  ghost predicate IsGreedySchedule(courses: seq<Course>, rooms: seq<Room>, timeslots: seq<Timeslot>, out: seq<Assignment>)
  {
    exists order :: IsProcessingOrder(courses, order) && IsGreedyRun(rooms, timeslots, order, out)
  }

  /**
   * Extending a greedy run over the first `i` courses of `order` by a greedy
   * step for course `i` gives a greedy run over the first `i + 1`.
   */
  lemma RunExtends(rooms: seq<Room>, timeslots: seq<Timeslot>, order: seq<Course>, i: int,
                   out: seq<Assignment>, a: Assignment)
    requires 0 <= i < |order|
    requires IsGreedyRun(rooms, timeslots, order[..i], out)
    requires IsGreedyStep(rooms, AvailabilityAfter(rooms, timeslots, out), order[i], a)
    ensures IsGreedyRun(rooms, timeslots, order[..i + 1], out + [a])
    ensures AvailabilityAfter(rooms, timeslots, out + [a]) == Consume(AvailabilityAfter(rooms, timeslots, out), a)
  {
    var order', out' := order[..i + 1], out + [a];
    assert out'[..|out|] == out;
    forall k | 0 <= k < |out'|
      ensures StepAt(rooms, timeslots, order', out', k)
    {
      if k < |out| {
        assert StepAt(rooms, timeslots, order[..i], out, k);
        assert out'[..k] == out[..k];
      } else {
        assert out'[..k] == out;
      }
    }
  }

  /** Every room of the input keeps its entry in the availability map. */
  lemma {:induction false} AvailabilityCoversRooms(rooms: seq<Room>, timeslots: seq<Timeslot>, done: seq<Assignment>)
    ensures forall room :: room in rooms ==> room.id in AvailabilityAfter(rooms, timeslots, done)
    decreases |done|
  {
    if done != [] {
      AvailabilityCoversRooms(rooms, timeslots, done[..|done| - 1]);
    }
  }
}
