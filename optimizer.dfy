/**
 * The greedy room/timeslot scheduler: largest courses first, each placed in
 * the smallest sufficient room that still has a free slot, at that room's
 * earliest free slot.
 */
module Optimizer {
  import opened TimeslotOrder
  import opened Sorting
  import opened Schedule

  /** Sort key that puts larger courses first. */
  function LargestFirst(c: Course): int
  {
    -c.predictedStudents
  }

  function Capacity(room: Room): int
  {
    room.capacity
  }

  /** The rooms with at least `needed` seats, in input order, every qualifying row kept. */
  function SufficientRooms(rooms: seq<Room>, needed: int): (r: seq<Room>)
    ensures forall room :: room in r <==> room in rooms && needed <= room.capacity
    ensures forall room :: multiset(r)[room] == if needed <= room.capacity then multiset(rooms)[room] else 0
    decreases |rooms|
  {
    if rooms == [] then []
    else
      assert rooms == [rooms[0]] + rooms[1..];
      assert multiset(rooms) == multiset{rooms[0]} + multiset(rooms[1..]);
      (if needed <= rooms[0].capacity then [rooms[0]] else []) + SufficientRooms(rooms[1..], needed)
  }

  /** The candidate rooms for a course of `needed` students, smallest capacity first. */
  function Candidates(rooms: seq<Room>, needed: int): (r: seq<Room>)
    ensures forall room :: room in r <==> room in rooms && needed <= room.capacity
    ensures multiset(r) == multiset(SufficientRooms(rooms, needed))
    ensures forall i, j :: 0 <= i < j < |r| ==> r[i].capacity <= r[j].capacity
  {
    var c := SortByKey(SufficientRooms(rooms, needed), Capacity);
    assert forall room :: room in c <==> room in multiset(c);
    c
  }

  /** In a list sorted by capacity, a strictly smaller room comes strictly earlier. */
  lemma SmallerRoomComesFirst(s: seq<Room>, a: int, b: int)
    requires forall i, j :: 0 <= i < j < |s| ==> s[i].capacity <= s[j].capacity
    requires 0 <= a < |s| && 0 <= b < |s| && s[a].capacity < s[b].capacity
    ensures a < b
  {
  }

  /** The earliest of a room's free slots, in string order. */
  method SmallestFree(free: set<Timeslot>) returns (ts: Timeslot)
    requires free != {}
    ensures IsLeastSlot(ts, free)
  {
    ts :| ts in free;
    StrLeReflexive(ts);
    var rest := free - {ts};
    while rest != {}
      invariant rest <= free && ts in free
      invariant forall u :: u in free - rest ==> StrLe(ts, u)
      decreases rest
    {
      var u :| u in rest;
      if !StrLe(ts, u) {
        StrLeTotal(ts, u);
        StrLeReflexive(u);
        forall v | v in free - rest
          ensures StrLe(u, v)
        {
          StrLeTransitive(u, ts, v);
        }
        ts := u;
      }
      rest := rest - {u};
    }
  }

  /**
   * When `candidates` are the big-enough rooms in capacity order and candidate
   * `j` is the first with a free slot, its row in the rooms table is a room
   * the greedy scan may settle on.
   */
  lemma FirstFreeCandidateIsChosen(rooms: seq<Room>, avail: Availability, needed: int, candidates: seq<Room>, j: int)
    returns (idx: int)
    requires forall room :: room in candidates <==> room in rooms && needed <= room.capacity
    requires forall i, k :: 0 <= i < k < |candidates| ==> candidates[i].capacity <= candidates[k].capacity
    requires 0 <= j < |candidates|
    requires forall k :: 0 <= k < j ==> FreeIn(avail, candidates[k].id) == {}
    requires FreeIn(avail, candidates[j].id) != {}
    ensures IsChosenRoom(rooms, avail, needed, idx) && rooms[idx] == candidates[j]
  {
    var chosen := candidates[j];
    assert chosen in candidates;
    idx :| 0 <= idx < |rooms| && rooms[idx] == chosen;
    forall k | 0 <= k < |rooms| && needed <= rooms[k].capacity < chosen.capacity
      ensures FreeIn(avail, rooms[k].id) == {}
    {
      assert rooms[k] in rooms;
      var m :| 0 <= m < |candidates| && candidates[m] == rooms[k];
      SmallerRoomComesFirst(candidates, m, j);
    }
  }

  /**
   * The record the candidate scan emits when candidate `j` is the first one
   * with a free slot and `ts` is that room's earliest free slot.
   */
  lemma FirstFreeCandidateIsGreedyStep(rooms: seq<Room>, avail: Availability, course: Course, j: int, ts: Timeslot)
    requires 0 <= j < |Candidates(rooms, course.predictedStudents)|
    requires forall k :: 0 <= k < j ==> FreeIn(avail, Candidates(rooms, course.predictedStudents)[k].id) == {}
    requires IsLeastSlot(ts, FreeIn(avail, Candidates(rooms, course.predictedStudents)[j].id))
    ensures IsGreedyStep(rooms, avail, course,
      Assignment(course.id, course.name, Some(Candidates(rooms, course.predictedStudents)[j].id), Some(ts),
                 course.predictedStudents))
  {
    var candidates := Candidates(rooms, course.predictedStudents);
    var idx := FirstFreeCandidateIsChosen(rooms, avail, course.predictedStudents, candidates, j);
  }

  /** The record the candidate scan emits when no candidate has a free slot. */
  lemma NoFreeCandidateIsGreedyStep(rooms: seq<Room>, avail: Availability, course: Course)
    requires forall k :: 0 <= k < |Candidates(rooms, course.predictedStudents)| ==>
      FreeIn(avail, Candidates(rooms, course.predictedStudents)[k].id) == {}
    ensures IsGreedyStep(rooms, avail, course,
      Assignment(course.id, course.name, None, None, course.predictedStudents))
  {
    var candidates := Candidates(rooms, course.predictedStudents);
    forall k | 0 <= k < |rooms| && course.predictedStudents <= rooms[k].capacity
      ensures FreeIn(avail, rooms[k].id) == {}
    {
      var m :| 0 <= m < |candidates| && candidates[m] == rooms[k];
    }
  }

  /**
   * The candidate scan: the index of the first candidate room that still has
   * a free slot, or `|candidates|` when every one of them is full.
   */
  method FirstRoomWithFreeSlot(candidates: seq<Room>, roomFree: Availability) returns (j: int)
    requires forall room :: room in candidates ==> room.id in roomFree
    ensures 0 <= j <= |candidates|
    ensures j < |candidates| ==> FreeIn(roomFree, candidates[j].id) != {}
    ensures forall k :: 0 <= k < j ==> FreeIn(roomFree, candidates[k].id) == {}
  {
    j := 0;
    while j < |candidates|
      invariant 0 <= j <= |candidates|
      invariant forall k :: 0 <= k < j ==> FreeIn(roomFree, candidates[k].id) == {}
    {
      var r := candidates[j].id;
      assert candidates[j] in candidates;
      if |roomFree[r]| > 0 {
        return;
      }
      j := j + 1;
    }
  }

  /**
   * Places one course: the earliest free slot of the first candidate room
   * that still has one, or an unassigned record when none has. `roomFree` is
   * the availability before the course, `roomFree'` the availability after it.
   */
  method PlaceCourse(rooms: seq<Room>, roomFree: Availability, course: Course)
    returns (record: Assignment, roomFree': Availability)
    requires forall room :: room in rooms ==> room.id in roomFree
    ensures IsGreedyStep(rooms, roomFree, course, record)
    ensures roomFree' == Consume(roomFree, record)
  {
    var needed := course.predictedStudents;
    var candidates := Candidates(rooms, needed);
    var j := FirstRoomWithFreeSlot(candidates, roomFree);
    if j < |candidates| {
      var r := candidates[j].id;
      var ts := SmallestFree(roomFree[r]);
      FirstFreeCandidateIsGreedyStep(rooms, roomFree, course, j, ts);
      record := Assignment(course.id, course.name, Some(r), Some(ts), needed);
      roomFree' := roomFree[r := roomFree[r] - {ts}];
    } else {
      NoFreeCandidateIsGreedyStep(rooms, roomFree, course);
      record := Assignment(course.id, course.name, None, None, needed);
      roomFree' := roomFree;
    }
  }

  /** The course order of the scheduler is a processing order: a permutation, largest first. */
  lemma LargestFirstIsProcessingOrder(courses: seq<Course>)
    ensures IsProcessingOrder(courses, SortByKey(courses, LargestFirst))
  {
    var sortedCourses := SortByKey(courses, LargestFirst);
    forall i, j | 0 <= i < j < |sortedCourses|
      ensures sortedCourses[i].predictedStudents >= sortedCourses[j].predictedStudents
    {
      assert LargestFirst(sortedCourses[i]) <= LargestFirst(sortedCourses[j]);
    }
  }

  /**
   * Places every course, largest predicted size first. `roomFree` is the
   * per-room set of free slots that the placements consume; `assignments`
   * grows by one record per course.
   */
  method GreedyAssign(courses: seq<Course>, rooms: seq<Room>, timeslots: seq<Timeslot>)
    returns (assignments: seq<Assignment>)
    ensures |assignments| == |courses|
    ensures IsGreedySchedule(courses, rooms, timeslots, assignments)
  {
    assignments := [];
    var sortedCourses := SortByKey(courses, LargestFirst);
    LargestFirstIsProcessingOrder(courses);
    assert |sortedCourses| == |multiset(courses)| == |courses|;
    var roomFree := InitialAvailability(rooms, timeslots);
    var i := 0;
    while i < |sortedCourses|
      invariant 0 <= i <= |sortedCourses| && |assignments| == i
      invariant roomFree == AvailabilityAfter(rooms, timeslots, assignments)
      invariant IsGreedyRun(rooms, timeslots, sortedCourses[..i], assignments)
    {
      AvailabilityCoversRooms(rooms, timeslots, assignments);
      var record;
      record, roomFree := PlaceCourse(rooms, roomFree, sortedCourses[i]);
      RunExtends(rooms, timeslots, sortedCourses, i, assignments, record);
      assignments := assignments + [record];
      i := i + 1;
    }
    assert sortedCourses[..i] == sortedCourses;
  }
}
