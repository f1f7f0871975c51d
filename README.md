# Greedy course scheduler, modelled in Dafny

This project models the room and timeslot assignment heuristic `greedy_assign`
of the smart university scheduler (`src/optimizer.py`). It also proves what
every schedule that heuristic produces guarantees.

The scheduler takes:

- a table of courses (id, name, predicted number of students, duration);
- a table of rooms (id, capacity);
- a list of timeslot strings.

It works as follows:

1. Sort the courses by predicted size, largest first.
2. Give every room its own set of free timeslots, which starts as all of them.
3. For each course, take the rooms with at least as many seats as the
   course needs, sorted by capacity, smallest first.
4. Give the course the first of those rooms that still has a free slot, at
   that room's earliest free slot in string order, and remove the slot from
   the room's set.
5. When no such room exists, emit a record with neither room nor timeslot.

There is one output record per course.

Files and modules:

- `timeslot_order.dfy` (`TimeslotOrder`): Python's `<=` on strings, which
  compares code point by code point and puts a proper prefix first. It is
  proved reflexive, antisymmetric, transitive and total.
- `sorting.dfy` (`Sorting`): both `sort_values` calls. pandas' default sort
  is not stable, so the contract is only "a permutation of the input, ordered
  by the key". The order among equal keys is left open.
- `schedule.dfy` (`Schedule`): the entities and the specification of a
  greedy schedule.
  - `Course`, `Room`, `Assignment`: the records. A missing room or slot is
    an `Option`.
  - `Availability`: the map from room id to the set of free slots.
  - `IsGreedyStep`: the record the scan may emit for one course from a
    given availability.
  - `IsGreedySchedule`: there is a largest-first permutation of the courses
    such that every record is a greedy step from the availability the
    earlier records left.

  Every tie order the unstable sorts may produce is covered. Courses of
  equal size may be processed in any order. Among rooms of equal capacity,
  any one may come first: the chosen room is any big-enough room with a free
  slot, provided that every big-enough room of strictly smaller capacity is
  full.
- `optimizer.dfy` (`Optimizer`): the scheduler itself.
  - `GreedyAssign` is a method with a loop over the sorted courses. The loop
    reassigns the availability map and appends to the output sequence.
  - `PlaceCourse` handles one course. It computes the candidates, calls
    `FirstRoomWithFreeSlot` (the candidate scan that stops at the first room
    with a free slot, which the source does with `break`), and then either
    takes the earliest slot (`SmallestFree`) and removes it, or emits the
    unassigned record.
  - Each method is proved against the specification in `Schedule`.
- `schedule_properties.dfy` (`ScheduleProperties`): the guarantees of every
  greedy schedule, proved from `IsGreedySchedule`:
  - one record per course;
  - capacity is respected;
  - no double booking;
  - assigned slots come from the input;
  - a record is unassigned exactly when every big-enough room is full;
  - records come out largest first;
  - availability only shrinks;
  - a worked scenario with two rooms and one slot.

Both `sort_values` calls (src/optimizer.py:16 and :26) use pandas' default,
non-stable algorithm. So courses of equal size may be processed in any order,
and rooms of equal capacity may be scanned in any order.

## Model

| member | source | states |
|---|---|---|
| Optimizer.GreedyAssign | src/optimizer.py:5-57 | Returns exactly one record per course. The records form a greedy schedule: some largest-first permutation of the courses exists in which each record carries its course's id, name and size, and either takes a big-enough room whose smaller big-enough rooms are all full, at that room's earliest free slot, or is unassigned because no big-enough room has a free slot. |
| Optimizer.PlaceCourse | src/optimizer.py:22-55 | The record for one course is a greedy step from the current availability. The new availability is the old one with the assigned slot removed from its room, or unchanged when the course stays unassigned. |
| Optimizer.FirstRoomWithFreeSlot | src/optimizer.py:30-46 | Returns the index of the first candidate whose free set is non-empty, or the number of candidates when there is none. Every candidate before that index has an empty free set. |
| Optimizer.SmallestFree | src/optimizer.py:34 | Returns a member of the non-empty free set that is at most every member in Python string order. |
| Optimizer.SufficientRooms | src/optimizer.py:26 | A room is in the result exactly when it is an input room with capacity at least the course size. Every qualifying row is kept as often as it occurs in the input, and every other row is dropped (multiplicities agree). |
| Optimizer.Candidates | src/optimizer.py:26 | The candidates are a permutation (equal multisets) of the qualifying rows that `SufficientRooms` keeps, in non-decreasing order of capacity. |
| Optimizer.LargestFirstIsProcessingOrder | src/optimizer.py:16 | The sorted courses are a permutation of the input in non-increasing order of predicted size. |
| Optimizer.FirstFreeCandidateIsChosen | src/optimizer.py:26-33 | Given the big-enough rooms in capacity order, the first candidate with a free slot is a big-enough room with a free slot, and every big-enough room of strictly smaller capacity is full. |
| Optimizer.FirstFreeCandidateIsGreedyStep | src/optimizer.py:30-46 | The assigned record built from the first free candidate and its earliest free slot is a greedy step. |
| Optimizer.NoFreeCandidateIsGreedyStep | src/optimizer.py:48-55 | When every candidate is full, the unassigned record is a greedy step, because no big-enough room has a free slot. |
| Sorting.SortByKey | src/optimizer.py:16-26 | Models both sorts: by descending predicted size (:16) and by ascending capacity (:26). The result is a permutation of the input (equal multisets) sorted by the key. The order of ties is not fixed. |
| Sorting.Insert | src/optimizer.py:16-26 | The helper step of `SortByKey`: inserting into a sorted sequence adds exactly that element and keeps the sequence sorted. |
| Schedule.InitialAvailability | src/optimizer.py:19 | The map has exactly the room ids as keys, and each room's free set is exactly the set of input timeslots. |
| Schedule.RunExtends | src/optimizer.py:21-55 | A greedy run over the first i courses, extended by a greedy step for course i, is a greedy run over the first i + 1 courses. The availability after it is the old availability with that record consumed. |
| Schedule.AvailabilityCoversRooms | src/optimizer.py:19-44 | Every room id stays a key of the availability map whatever records were emitted, so the lookup of a candidate's free set never fails. |
| ScheduleProperties.AvailabilityShrinks | src/optimizer.py:19-44 | After more records, every room's free set is a subset of what it was after fewer records. |
| ScheduleProperties.FreeSlotsAreTimeslots | src/optimizer.py:19 | A slot is only ever free if it is one of the input timeslots. |
| ScheduleProperties.StepConsumesOneSlot | src/optimizer.py:44-48 | An unassigned step leaves the availability unchanged. An assigned step removes exactly its slot, which was free, from its room: that set shrinks by one and every other room is untouched. |
| ScheduleProperties.UnassignedIffNoRoomFree | src/optimizer.py:26-55 | For one step: the record has no room if and only if no big-enough room has a free slot. |
| ScheduleProperties.UnassignedExactlyWhenFull | src/optimizer.py:26-55 | For every record of a schedule: it is unassigned if and only if no big-enough room had a free slot at its turn. |
| ScheduleProperties.LeastSlotUnique | src/optimizer.py:34 | A set has at most one earliest slot, so the slot choice is determined by the room. |
| ScheduleProperties.CapacityRespected | src/optimizer.py:26-39 | Every assigned room id belongs to an input room whose capacity is at least the record's predicted size. |
| ScheduleProperties.AssignedSlotIsTimeslot | src/optimizer.py:19-34 | Every assigned timeslot is one of the input timeslots. |
| ScheduleProperties.NoDoubleBooking | src/optimizer.py:33-44 | No two records share the same room and the same timeslot. |
| ScheduleProperties.OversizedCourseUnassigned | src/optimizer.py:26-55 | A course larger than every room gets neither room nor timeslot. |
| ScheduleProperties.NoRoomsOrNoSlotsAllUnassigned | src/optimizer.py:19-55 | With an empty room list or an empty timeslot list, every record is unassigned. |
| ScheduleProperties.OutputLargestFirst | src/optimizer.py:16-21 | Records come out in non-increasing order of predicted size. |
| ScheduleProperties.OneRecordPerCourse | src/optimizer.py:21-55 | There are as many records as courses. The records' (id, name, size) triples are exactly the courses' triples, as multisets: none is dropped or invented. |
| ScheduleProperties.TwoRoomsOneSlotScenario | src/optimizer.py:5-57 | Rooms of 30 and 50 seats, one slot, and courses of 40, 20 and 10 students: the 40 gets the 50-seat room, the 20 gets the 30-seat room, and the 10 is unassigned. |
| TimeslotOrder.StrLeReflexive | src/optimizer.py:34 | Every string is at most itself. |
| TimeslotOrder.StrLeAntisymmetric | src/optimizer.py:34 | Two strings that are each at most the other are equal. |
| TimeslotOrder.StrLeTransitive | src/optimizer.py:34 | String order is transitive. |
| TimeslotOrder.StrLeTotal | src/optimizer.py:34 | Any two strings are comparable. |

## Left out

- The pandas DataFrames: the input tables are sequences of records, and the
  result (`pd.DataFrame(assignments)`, src/optimizer.py:57) is a sequence of
  records. Column names are not modelled.
- The exact tie order of pandas' default sort. `Sorting.SortByKey` is an
  insertion sort, which is one particular permutation. The contracts and
  `IsGreedySchedule` allow every tie order, so every property holds for
  whatever order pandas picks.
- The `duration` column: it is kept in `Course` but never used, as in the
  source (src/optimizer.py:23). It is read there with `int(...)`, which
  could raise, and this is not modelled.
- The `int(...)` conversion of the predicted size (src/optimizer.py:22):
  sizes and capacities are integers in the model. Non-integer, missing or
  NaN values are not modelled.
- Python's in-place mutation of the per-room sets: the model reassigns the
  availability map as a value. Two room rows with the same id share one set
  in the source, and the model gets the same effect because the map is keyed
  by room id.
- The dashboard (`streamlit_app.py`), data generation
  (`scripts/generate_data.py`), model training (`src/model.py`,
  `scripts/train_model.py`), feature loading (`src/features.py`) and the
  command-line driver (`scripts/run_optimizer.py`). These are UI, random
  number generation, floating point, library calls and file I/O. They are
  not part of this model.
