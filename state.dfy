/** The scheduler's bookkeeping as one value: the timetable, the indexes kept
    beside it, the legality test for one assignment (is_valid_assignment), and
    what booking (schedule_subject) and releasing (unschedule_subject) one
    session do to all of it.  The invariant ValidState ties every index to the
    timetable; booking a legal assignment and releasing a booked one keep it. */
module ScheduleState {
  import opened Names
  import opened Collections
  import opened OrderedMaps
  import opened Catalog

  /** `{'subject': ..., 'teacher': ..., 'room': ...}` */
  datatype Entry = Entry(subject: Name, teacher: Name, room: Name)

  /** The tracking structures.  Python's nested defaultdicts become maps, sets
      and multisets keyed by pairs; a pair that counts zero is simply absent. */
  datatype State = State(
    schedule: map<Name, OMap<Entry>>,                  // class -> slot -> entry
    teacherBookings: set<(Name, Name)>,                // (teacher, slot)
    classBookings: set<(Name, Name)>,                  // (class, slot)
    roomBookings: set<(Name, Name)>,                   // (room, slot)
    scheduledCounts: multiset<(Name, Name)>,           // (class, subject)
    teacherDailyLoad: multiset<(Name, Name)>,          // (teacher, day)
    classSubjectTime: map<(Name, Name), seq<Name>>,    // (class, subject) -> slots
    teacherSchedule: map<(Name, Name), (Name, Name)>,  // (teacher, slot) -> (class, subject)
    labRoomBookings: set<(Name, Name)>)                // (slot, room)

  /** initialize_tracking_structures: nothing booked. */
  const Initial: State := State(map[], {}, {}, {}, multiset{}, multiset{}, map[], map[], {})

  /** `schedule[cls]`, empty for a class with nothing booked. */
  function Row(st: State, cls: Name): OMap<Entry> {
    if cls in st.schedule then st.schedule[cls] else []
  }

  /** `class_subject_time[cls][subject]` */
  function TimesOf(st: State, cls: Name, subject: Name): seq<Name> {
    if (cls, subject) in st.classSubjectTime then st.classSubjectTime[(cls, subject)] else []
  }

  /** `self.rooms[room]['type']`; every room that is ever booked is known. */
  function RoomKind(cfg: Config, room: Name): string {
    if HasKey(cfg.rooms, room) then Get(cfg.rooms, room).kind else ""
  }

  /** The index of the last occurrence of `x` in `s`. */
  function LastIndex(s: seq<Name>, x: Name): (i: int)
    requires x in s
    ensures 0 <= i < |s| && s[i] == x
    ensures forall j :: i < j < |s| ==> s[j] != x
  {
    assert s == s[..|s| - 1] + [s[|s| - 1]];
    if s[|s| - 1] == x then |s| - 1 else LastIndex(s[..|s| - 1], x)
  }

  /** `time_slot_index[slot]` where `time_slot_index = {slot: idx for idx, slot in
      enumerate(time_slots)}`: a repeated label keeps its last position.  Slots
      outside `time_slots` are never booked (they would raise KeyError). */
  function SlotIndex(cfg: Config, slot: Name): int {
    if slot in cfg.timeSlots then LastIndex(cfg.timeSlots, slot) else -1
  }

  /** `len(lab_room_bookings[slot]) >= 1`: some lab room is already taken at `slot`. */
  predicate LabBusy(st: State, slot: Name) {
    exists p :: p in st.labRoomBookings && p.0 == slot
  }

  /** The lab-prerequisite test: some recorded session of the base subject of
      `subject` (the name with " Lab" removed) comes strictly earlier in
      `time_slots` than `slot`. */
  predicate TheoryBefore(cfg: Config, st: State, cls: Name, subject: Name, slot: Name) {
    var key := (cls, StripLab(subject));
    key in st.classSubjectTime &&
    exists i :: 0 <= i < |st.classSubjectTime[key]| &&
      SlotIndex(cfg, st.classSubjectTime[key][i]) < SlotIndex(cfg, slot)
  }

  /** is_valid_assignment, one test after another in the order of the source. */
  predicate IsValidAssignment(cfg: Config, st: State, cls: Name, subject: Name, teacher: Name,
                              room: Name, slot: Name)
    requires HasKey(cfg.rooms, room) && cls in cfg.sizes
  {
    if (teacher, slot) in st.teacherBookings || (cls, slot) in st.classBookings ||
       (room, slot) in st.roomBookings then false
    else if !Qualified(cfg, teacher, subject) then false
    else
      var info := Get(cfg.rooms, room);
      var required := RequiredType(cfg, subject);
      if cfg.sizes[cls] > info.capacity then false
      else if info.kind != "flex" && required != info.kind then false
      else if EndsWithLab(subject) && required == "lab" && info.kind != "lab" then false
      else if st.teacherDailyLoad[(teacher, DayOf(slot))] >= cfg.maxDailyLoad then false
      else if EndsWithLab(subject) then TheoryBefore(cfg, st, cls, subject, slot)
      else true
  }

  /** The updates schedule_subject makes once the assignment is accepted. */
  function Commit(cfg: Config, st: State, cls: Name, subject: Name, teacher: Name,
                  room: Name, slot: Name): State
  {
    State(
      st.schedule[cls := Put(Row(st, cls), slot, Entry(subject, teacher, room))],
      st.teacherBookings + {(teacher, slot)},
      st.classBookings + {(cls, slot)},
      st.roomBookings + {(room, slot)},
      st.scheduledCounts + multiset{(cls, subject)},
      st.teacherDailyLoad + multiset{(teacher, DayOf(slot))},
      st.classSubjectTime[(cls, subject) := TimesOf(st, cls, subject) + [slot]],
      st.teacherSchedule[(teacher, slot) := (cls, subject)],
      if EndsWithLab(subject) && RoomKind(cfg, room) == "lab"
      then st.labRoomBookings + {(slot, room)} else st.labRoomBookings)
  }

  /** The updates unschedule_subject makes when `slot` is booked for `cls`.  A
      class whose row becomes empty leaves the map, which is how an empty
      defaultdict row reads. */
  function Uncommit(cfg: Config, st: State, cls: Name, slot: Name): State
    requires HasKey(Row(st, cls), slot)
  {
    var e := Get(Row(st, cls), slot);
    var key := (cls, e.subject);
    var rest := Remove(Row(st, cls), slot);
    State(
      if rest == [] then st.schedule - {cls} else st.schedule[cls := rest],
      st.teacherBookings - {(e.teacher, slot)},
      st.classBookings - {(cls, slot)},
      st.roomBookings - {(e.room, slot)},
      st.scheduledCounts - multiset{key},
      st.teacherDailyLoad - multiset{(e.teacher, DayOf(slot))},
      if key in st.classSubjectTime
      then st.classSubjectTime[key := RemoveFirst(st.classSubjectTime[key], slot)]
      else st.classSubjectTime,
      st.teacherSchedule - {(e.teacher, slot)},
      if EndsWithLab(e.subject) && RoomKind(cfg, e.room) == "lab"
      then st.labRoomBookings - {(slot, e.room)} else st.labRoomBookings)
  }

  // ---------------------------------------------------------------------------
  // The timetable as a set of bookings, and the invariant relating the indexes
  // to it.

  /** One filled cell of the timetable. */
  datatype Booking = Booking(cls: Name, slot: Name, entry: Entry)

  ghost function Bookings(sch: map<Name, OMap<Entry>>): set<Booking> {
    set c, e | c in sch && e in sch[c] :: Booking(c, e.0, e.1)
  }

  ghost function TeacherSlots(B: set<Booking>): set<(Name, Name)> {
    set b | b in B :: (b.entry.teacher, b.slot)
  }

  ghost function ClassSlots(B: set<Booking>): set<(Name, Name)> {
    set b | b in B :: (b.cls, b.slot)
  }

  ghost function RoomSlots(B: set<Booking>): set<(Name, Name)> {
    set b | b in B :: (b.entry.room, b.slot)
  }

  /** A lab subject held in a room of type 'lab': what lab_room_bookings records. */
  predicate IsLabBooking(cfg: Config, b: Booking) {
    EndsWithLab(b.entry.subject) && RoomKind(cfg, b.entry.room) == "lab"
  }

  ghost function LabSlots(cfg: Config, B: set<Booking>): set<(Name, Name)> {
    set b | b in B && IsLabBooking(cfg, b) :: (b.slot, b.entry.room)
  }

  /** The sessions of `subject` booked for `cls`. */
  ghost function Sessions(B: set<Booking>, cls: Name, subject: Name): set<Booking> {
    set b | b in B && b.cls == cls && b.entry.subject == subject
  }

  ghost function SessionSlots(B: set<Booking>, cls: Name, subject: Name): set<Name> {
    set b | b in B && b.cls == cls && b.entry.subject == subject :: b.slot
  }

  /** The sessions `teacher` gives on `day`. */
  ghost function DaySessions(B: set<Booking>, teacher: Name, day: Name): set<Booking> {
    set b | b in B && b.entry.teacher == teacher && DayOf(b.slot) == day
  }

  /** What every booking made through is_valid_assignment satisfies. */
  predicate BookingSound(cfg: Config, b: Booking) {
    b.slot in cfg.timeSlots && HasKey(cfg.rooms, b.entry.room) && b.cls in cfg.sizes &&
    Qualified(cfg, b.entry.teacher, b.entry.subject) &&
    cfg.sizes[b.cls] <= Get(cfg.rooms, b.entry.room).capacity &&
    (Get(cfg.rooms, b.entry.room).kind == "flex" ||
     Get(cfg.rooms, b.entry.room).kind == RequiredType(cfg, b.entry.subject))
  }

  ghost predicate RowsWellFormed(sch: map<Name, OMap<Entry>>) {
    forall c :: c in sch ==> WellFormed(sch[c]) && sch[c] != []
  }

  ghost predicate Sound(cfg: Config, B: set<Booking>) {
    forall b :: b in B ==> BookingSound(cfg, b)
  }

  ghost predicate IndexesMatch(tb: set<(Name, Name)>, cb: set<(Name, Name)>, rb: set<(Name, Name)>,
                               B: set<Booking>) {
    tb == TeacherSlots(B) && cb == ClassSlots(B) && rb == RoomSlots(B)
  }

  /** No teacher, class or room holds two sessions in one slot. */
  ghost predicate NoDoubleBooking(B: set<Booking>) {
    forall b1, b2 :: b1 in B && b2 in B && b1.slot == b2.slot &&
      (b1.entry.teacher == b2.entry.teacher || b1.cls == b2.cls || b1.entry.room == b2.entry.room)
      ==> b1 == b2
  }

  ghost predicate CountsMatch(sc: multiset<(Name, Name)>, B: set<Booking>) {
    forall c, s :: sc[(c, s)] == |Sessions(B, c, s)|
  }

  ghost predicate LoadsMatch(tdl: multiset<(Name, Name)>, B: set<Booking>) {
    forall t, d :: tdl[(t, d)] == |DaySessions(B, t, d)|
  }

  /** No teacher exceeds teacher_max_daily_load on any day. */
  ghost predicate LoadsBounded(cfg: Config, tdl: multiset<(Name, Name)>) {
    forall p :: p in tdl ==> tdl[p] <= cfg.maxDailyLoad
  }

  ghost predicate TimesMatch(cst: map<(Name, Name), seq<Name>>, B: set<Booking>) {
    (forall p :: p in cst ==> Distinct(cst[p]) && SetOf(cst[p]) == SessionSlots(B, p.0, p.1)) &&
    (forall b :: b in B ==> (b.cls, b.entry.subject) in cst)
  }

  ghost predicate TeacherScheduleMatch(ts: map<(Name, Name), (Name, Name)>, tb: set<(Name, Name)>,
                                       B: set<Booking>) {
    ts.Keys == tb &&
    forall b :: b in B ==> (b.entry.teacher, b.slot) in ts &&
                           ts[(b.entry.teacher, b.slot)] == (b.cls, b.entry.subject)
  }

  ghost predicate LabRoomsMatch(cfg: Config, lrb: set<(Name, Name)>, B: set<Booking>) {
    lrb == LabSlots(cfg, B)
  }

  /** Everything the tracking structures promise about one another. */
  ghost predicate ValidState(cfg: Config, st: State) {
    var B := Bookings(st.schedule);
    RowsWellFormed(st.schedule) && Sound(cfg, B) &&
    IndexesMatch(st.teacherBookings, st.classBookings, st.roomBookings, B) &&
    NoDoubleBooking(B) && CountsMatch(st.scheduledCounts, B) &&
    LoadsMatch(st.teacherDailyLoad, B) && LoadsBounded(cfg, st.teacherDailyLoad) &&
    TimesMatch(st.classSubjectTime, B) &&
    TeacherScheduleMatch(st.teacherSchedule, st.teacherBookings, B) &&
    LabRoomsMatch(cfg, st.labRoomBookings, B)
  }

  /** At most one lab room is taken per slot, which find_available_slot and
      schedule_any_teacher keep by skipping lab rooms at busy slots. */
  ghost predicate OneLabPerSlot(st: State) {
    forall p, q :: p in st.labRoomBookings && q in st.labRoomBookings && p.0 == q.0 ==> p == q
  }

  /** The state of a freshly built scheduler is valid. */
  lemma InitialValid(cfg: Config)
    ensures ValidState(cfg, Initial) && OneLabPerSlot(Initial)
    ensures Bookings(Initial.schedule) == {}
  {
    assert Sessions({}, "", "") == {};
  }

  // ---------------------------------------------------------------------------
  // How booking and releasing change the set of bookings.

  lemma CommitBookings(st: State, cls: Name, slot: Name, e: Entry)
    requires !HasKey(Row(st, cls), slot)
    requires RowsWellFormed(st.schedule)
    ensures Bookings(st.schedule[cls := Put(Row(st, cls), slot, e)])
            == Bookings(st.schedule) + {Booking(cls, slot, e)}
  {
    var row := Row(st, cls);
    assert Put(row, slot, e) == row + [(slot, e)];
    AppendedCellBookings(st.schedule, cls, row, slot, e);
    OldCellsKept(st.schedule, cls, row, slot, e);
  }

  /** Every booking after appending a cell was there before or is the new one. */
  lemma AppendedCellBookings(sch: map<Name, OMap<Entry>>, cls: Name, row: OMap<Entry>, slot: Name, e: Entry)
    requires row == (if cls in sch then sch[cls] else [])
    ensures Bookings(sch[cls := row + [(slot, e)]]) <= Bookings(sch) + {Booking(cls, slot, e)}
  {
    var sch' := sch[cls := row + [(slot, e)]];
    forall b | b in Bookings(sch') ensures b in Bookings(sch) || b == Booking(cls, slot, e) {
      var c: Name, x: (Name, Entry) :| c in sch' && x in sch'[c] && b == Booking(c, x.0, x.1);
      if c == cls {
        if x != (slot, e) {
          assert x in row;
          assert c in sch;
        }
      } else {
        assert c in sch && x in sch[c];
      }
    }
  }

  /** Appending a cell keeps every booking and adds the new one. */
  lemma OldCellsKept(sch: map<Name, OMap<Entry>>, cls: Name, row: OMap<Entry>, slot: Name, e: Entry)
    requires row == (if cls in sch then sch[cls] else [])
    ensures Bookings(sch) + {Booking(cls, slot, e)} <= Bookings(sch[cls := row + [(slot, e)]])
  {
    var sch' := sch[cls := row + [(slot, e)]];
    forall b | b in Bookings(sch) ensures b in Bookings(sch') {
      var c: Name, x: (Name, Entry) :| c in sch && x in sch[c] && b == Booking(c, x.0, x.1);
      assert x in sch'[c];
    }
    assert (slot, e) in sch'[cls];
  }

  lemma UncommitBookings(st: State, cls: Name, slot: Name)
    requires HasKey(Row(st, cls), slot)
    requires RowsWellFormed(st.schedule)
    ensures var rest := Remove(Row(st, cls), slot);
            Bookings(if rest == [] then st.schedule - {cls} else st.schedule[cls := rest])
            == Bookings(st.schedule) - {Booking(cls, slot, Get(Row(st, cls), slot))}
  {
    var row := Row(st, cls);
    assert cls in st.schedule;
    RemovedCellBookings(st.schedule, cls, slot);
    OtherCellsKept(st.schedule, cls, slot);
  }

  /** After releasing a cell every booking was there before and is not the released one. */
  lemma RemovedCellBookings(sch: map<Name, OMap<Entry>>, cls: Name, slot: Name)
    requires cls in sch && HasKey(sch[cls], slot)
    ensures var rest := Remove(sch[cls], slot);
            Bookings(if rest == [] then sch - {cls} else sch[cls := rest])
            <= Bookings(sch) - {Booking(cls, slot, Get(sch[cls], slot))}
  {
    var row := sch[cls];
    var rest := Remove(row, slot);
    var sch' := if rest == [] then sch - {cls} else sch[cls := rest];
    forall b | b in Bookings(sch') ensures b in Bookings(sch) && b != Booking(cls, slot, Get(row, slot)) {
      var c: Name, x: (Name, Entry) :| c in sch' && x in sch'[c] && b == Booking(c, x.0, x.1);
      if c == cls {
        RemoveEntries(row, slot, x);
      } else {
        assert c in sch && x in sch[c];
      }
    }
  }

  /** Releasing a cell keeps every other booking. */
  lemma OtherCellsKept(sch: map<Name, OMap<Entry>>, cls: Name, slot: Name)
    requires cls in sch && HasKey(sch[cls], slot)
    requires WellFormed(sch[cls])
    ensures var rest := Remove(sch[cls], slot);
            Bookings(sch) - {Booking(cls, slot, Get(sch[cls], slot))}
            <= Bookings(if rest == [] then sch - {cls} else sch[cls := rest])
  {
    var row := sch[cls];
    var rest := Remove(row, slot);
    var sch' := if rest == [] then sch - {cls} else sch[cls := rest];
    var b0 := Booking(cls, slot, Get(row, slot));
    forall b | b in Bookings(sch) && b != b0 ensures b in Bookings(sch') {
      var c: Name, x: (Name, Entry) :| c in sch && x in sch[c] && b == Booking(c, x.0, x.1);
      if c == cls {
        KeptEntry(row, slot, x);
        assert sch'[cls] == rest;
      } else {
        assert x in sch'[c];
      }
    }
  }

  /** An entry of a well-formed row other than the released one survives `del`. */
  lemma KeptEntry(row: OMap<Entry>, slot: Name, x: (Name, Entry))
    requires WellFormed(row) && HasKey(row, slot) && x in row
    requires x != (slot, Get(row, slot))
    ensures x in Remove(row, slot)
  {
    EntryGet(row, x);
    RemoveEntries(row, slot, x);
  }

  lemma AddIndexes(B: set<Booking>, nb: Booking)
    ensures TeacherSlots(B + {nb}) == TeacherSlots(B) + {(nb.entry.teacher, nb.slot)}
    ensures ClassSlots(B + {nb}) == ClassSlots(B) + {(nb.cls, nb.slot)}
    ensures RoomSlots(B + {nb}) == RoomSlots(B) + {(nb.entry.room, nb.slot)}
  {
  }

  lemma RemoveIndexes(B: set<Booking>, b0: Booking)
    requires b0 in B && NoDoubleBooking(B)
    ensures TeacherSlots(B - {b0}) == TeacherSlots(B) - {(b0.entry.teacher, b0.slot)}
    ensures ClassSlots(B - {b0}) == ClassSlots(B) - {(b0.cls, b0.slot)}
    ensures RoomSlots(B - {b0}) == RoomSlots(B) - {(b0.entry.room, b0.slot)}
  {
  }

  // ---------------------------------------------------------------------------
  // Booking a legal assignment keeps the invariant.


  /** The first test of is_valid_assignment: teacher, class and room are all
      free at the slot. */
  predicate Free(st: State, cls: Name, teacher: Name, room: Name, slot: Name) {
    (teacher, slot) !in st.teacherBookings && (cls, slot) !in st.classBookings &&
    (room, slot) !in st.roomBookings
  }

  /** A cell that passed the first test is empty and clashes with no booking. */
  lemma FreshCell(st: State, nb: Booking)
    requires IndexesMatch(st.teacherBookings, st.classBookings, st.roomBookings, Bookings(st.schedule))
    requires Free(st, nb.cls, nb.entry.teacher, nb.entry.room, nb.slot)
    ensures !HasKey(Row(st, nb.cls), nb.slot)
    ensures nb !in Bookings(st.schedule)
    ensures forall b :: b in Bookings(st.schedule) && b.slot == nb.slot ==>
              b.entry.teacher != nb.entry.teacher && b.cls != nb.cls && b.entry.room != nb.entry.room
  {
    var B := Bookings(st.schedule);
    if HasKey(Row(st, nb.cls), nb.slot) {
      assert false;
    }
    forall b | b in B && b.slot == nb.slot
      ensures b.entry.teacher != nb.entry.teacher && b.cls != nb.cls && b.entry.room != nb.entry.room
    {
      assert (b.entry.teacher, b.slot) in TeacherSlots(B);
      assert (b.cls, b.slot) in ClassSlots(B);
      assert (b.entry.room, b.slot) in RoomSlots(B);
    }
  }

  lemma CommitCounts(sc: multiset<(Name, Name)>, B: set<Booking>, nb: Booking)
    requires CountsMatch(sc, B) && nb !in B
    ensures CountsMatch(sc + multiset{(nb.cls, nb.entry.subject)}, B + {nb})
  {
    forall c, s ensures (sc + multiset{(nb.cls, nb.entry.subject)})[(c, s)] == |Sessions(B + {nb}, c, s)| {
      if nb.cls == c && nb.entry.subject == s {
        assert Sessions(B + {nb}, c, s) == Sessions(B, c, s) + {nb};
      } else {
        assert Sessions(B + {nb}, c, s) == Sessions(B, c, s);
      }
    }
  }

  lemma CommitLoads(cfg: Config, tdl: multiset<(Name, Name)>, B: set<Booking>, nb: Booking)
    requires LoadsMatch(tdl, B) && LoadsBounded(cfg, tdl) && nb !in B
    requires tdl[(nb.entry.teacher, DayOf(nb.slot))] < cfg.maxDailyLoad
    ensures LoadsMatch(tdl + multiset{(nb.entry.teacher, DayOf(nb.slot))}, B + {nb})
    ensures LoadsBounded(cfg, tdl + multiset{(nb.entry.teacher, DayOf(nb.slot))})
  {
    var m := tdl + multiset{(nb.entry.teacher, DayOf(nb.slot))};
    forall t, d ensures m[(t, d)] == |DaySessions(B + {nb}, t, d)| {
      if nb.entry.teacher == t && DayOf(nb.slot) == d {
        assert DaySessions(B + {nb}, t, d) == DaySessions(B, t, d) + {nb};
      } else {
        assert DaySessions(B + {nb}, t, d) == DaySessions(B, t, d);
      }
    }
  }

  lemma CommitTimes(cst: map<(Name, Name), seq<Name>>, B: set<Booking>, nb: Booking,
                    times: seq<Name>)
    requires TimesMatch(cst, B) && nb !in B
    requires forall b :: b in B && b.slot == nb.slot ==> b.cls != nb.cls
    requires times == if (nb.cls, nb.entry.subject) in cst then cst[(nb.cls, nb.entry.subject)] else []
    ensures TimesMatch(cst[(nb.cls, nb.entry.subject) := times + [nb.slot]], B + {nb})
  {
    var key := (nb.cls, nb.entry.subject);
    var cst' := cst[key := times + [nb.slot]];
    assert SessionSlots(B + {nb}, key.0, key.1) == SessionSlots(B, key.0, key.1) + {nb.slot};
    if key in cst {
      assert nb.slot !in SessionSlots(B, key.0, key.1);
    } else {
      assert SessionSlots(B, key.0, key.1) == {};
    }
    assert nb.slot !in times;
    DistinctSnoc(times, nb.slot);
    assert SetOf(times + [nb.slot]) == SetOf(times) + {nb.slot};
    forall p | p in cst'
      ensures Distinct(cst'[p]) && SetOf(cst'[p]) == SessionSlots(B + {nb}, p.0, p.1)
    {
      if p != key {
        assert SessionSlots(B + {nb}, p.0, p.1) == SessionSlots(B, p.0, p.1);
      }
    }
  }

  lemma CommitTeacherSchedule(ts: map<(Name, Name), (Name, Name)>, tb: set<(Name, Name)>,
                              B: set<Booking>, nb: Booking)
    requires TeacherScheduleMatch(ts, tb, B) && tb == TeacherSlots(B)
    requires (nb.entry.teacher, nb.slot) !in tb
    ensures TeacherScheduleMatch(ts[(nb.entry.teacher, nb.slot) := (nb.cls, nb.entry.subject)],
                                 tb + {(nb.entry.teacher, nb.slot)}, B + {nb})
  {
    forall b | b in B ensures (b.entry.teacher, b.slot) != (nb.entry.teacher, nb.slot) {
      assert (b.entry.teacher, b.slot) in TeacherSlots(B);
    }
  }

  lemma CommitLabRooms(cfg: Config, lrb: set<(Name, Name)>, B: set<Booking>, nb: Booking)
    requires LabRoomsMatch(cfg, lrb, B)
    ensures LabRoomsMatch(cfg, if IsLabBooking(cfg, nb) then lrb + {(nb.slot, nb.entry.room)} else lrb,
                          B + {nb})
  {
    if IsLabBooking(cfg, nb) {
      assert LabSlots(cfg, B + {nb}) == LabSlots(cfg, B) + {(nb.slot, nb.entry.room)};
    } else {
      assert LabSlots(cfg, B + {nb}) == LabSlots(cfg, B);
    }
  }

  lemma CommitNoDouble(B: set<Booking>, nb: Booking)
    requires NoDoubleBooking(B)
    requires forall b :: b in B && b.slot == nb.slot ==>
               b.entry.teacher != nb.entry.teacher && b.cls != nb.cls && b.entry.room != nb.entry.room
    ensures NoDoubleBooking(B + {nb})
  {
  }

  /** The timetable side of booking: the new cell is added and no slot is
      double-booked. */
  lemma CommitShape(cfg: Config, st: State, nb: Booking)
    requires var B := Bookings(st.schedule);
             RowsWellFormed(st.schedule) && Sound(cfg, B) && NoDoubleBooking(B) &&
             IndexesMatch(st.teacherBookings, st.classBookings, st.roomBookings, B)
    requires Free(st, nb.cls, nb.entry.teacher, nb.entry.room, nb.slot) && BookingSound(cfg, nb)
    ensures var sch' := st.schedule[nb.cls := Put(Row(st, nb.cls), nb.slot, nb.entry)];
            var B' := Bookings(sch');
            B' == Bookings(st.schedule) + {nb} &&
            RowsWellFormed(sch') && Sound(cfg, B') && NoDoubleBooking(B') &&
            IndexesMatch(st.teacherBookings + {(nb.entry.teacher, nb.slot)},
                         st.classBookings + {(nb.cls, nb.slot)},
                         st.roomBookings + {(nb.entry.room, nb.slot)}, B')
  {
    var B := Bookings(st.schedule);
    FreshCell(st, nb);
    CommitBookings(st, nb.cls, nb.slot, nb.entry);
    PutWellFormed(Row(st, nb.cls), nb.slot, nb.entry);
    AddIndexes(B, nb);
    CommitNoDouble(B, nb);
  }

  /** The index side of booking: counts, loads, subject times, the teacher
      schedule and the lab-room record follow the new cell. */
  lemma CommitTally(cfg: Config, st: State, nb: Booking)
    requires var B := Bookings(st.schedule);
             IndexesMatch(st.teacherBookings, st.classBookings, st.roomBookings, B) &&
             CountsMatch(st.scheduledCounts, B) && LoadsMatch(st.teacherDailyLoad, B) &&
             LoadsBounded(cfg, st.teacherDailyLoad) && TimesMatch(st.classSubjectTime, B) &&
             TeacherScheduleMatch(st.teacherSchedule, st.teacherBookings, B) &&
             LabRoomsMatch(cfg, st.labRoomBookings, B)
    requires Free(st, nb.cls, nb.entry.teacher, nb.entry.room, nb.slot)
    requires st.teacherDailyLoad[(nb.entry.teacher, DayOf(nb.slot))] < cfg.maxDailyLoad
    ensures var B' := Bookings(st.schedule) + {nb};
            var tdl' := st.teacherDailyLoad + multiset{(nb.entry.teacher, DayOf(nb.slot))};
            CountsMatch(st.scheduledCounts + multiset{(nb.cls, nb.entry.subject)}, B') &&
            LoadsMatch(tdl', B') && LoadsBounded(cfg, tdl') &&
            TimesMatch(st.classSubjectTime[(nb.cls, nb.entry.subject) :=
                         TimesOf(st, nb.cls, nb.entry.subject) + [nb.slot]], B') &&
            TeacherScheduleMatch(st.teacherSchedule[(nb.entry.teacher, nb.slot) := (nb.cls, nb.entry.subject)],
                                 st.teacherBookings + {(nb.entry.teacher, nb.slot)}, B') &&
            LabRoomsMatch(cfg, if IsLabBooking(cfg, nb) then st.labRoomBookings + {(nb.slot, nb.entry.room)}
                               else st.labRoomBookings, B')
  {
    var B := Bookings(st.schedule);
    FreshCell(st, nb);
    CommitCounts(st.scheduledCounts, B, nb);
    CommitLoads(cfg, st.teacherDailyLoad, B, nb);
    CommitTimes(st.classSubjectTime, B, nb, TimesOf(st, nb.cls, nb.entry.subject));
    CommitTeacherSchedule(st.teacherSchedule, st.teacherBookings, B, nb);
    CommitLabRooms(cfg, st.labRoomBookings, B, nb);
  }

  /** schedule_subject keeps every promise of the tracking structures, and the
      timetable gains exactly the new cell. */
  lemma CommitValid(cfg: Config, st: State, cls: Name, subject: Name, teacher: Name,
                    room: Name, slot: Name)
    requires ValidState(cfg, st) && HasKey(cfg.rooms, room) && cls in cfg.sizes && slot in cfg.timeSlots
    requires IsValidAssignment(cfg, st, cls, subject, teacher, room, slot)
    ensures ValidState(cfg, Commit(cfg, st, cls, subject, teacher, room, slot))
    ensures Bookings(Commit(cfg, st, cls, subject, teacher, room, slot).schedule)
            == Bookings(st.schedule) + {Booking(cls, slot, Entry(subject, teacher, room))}
  {
    var nb := Booking(cls, slot, Entry(subject, teacher, room));
    assert Free(st, cls, teacher, room, slot);
    assert BookingSound(cfg, nb);
    CommitShape(cfg, st, nb);
    CommitTally(cfg, st, nb);
    assert IsLabBooking(cfg, nb) <==> EndsWithLab(subject) && RoomKind(cfg, room) == "lab";
  }

  // ---------------------------------------------------------------------------
  // Releasing a booked cell keeps the invariant.

  lemma UncommitCounts(sc: multiset<(Name, Name)>, B: set<Booking>, b0: Booking)
    requires CountsMatch(sc, B) && b0 in B
    ensures CountsMatch(sc - multiset{(b0.cls, b0.entry.subject)}, B - {b0})
  {
    forall c, s ensures (sc - multiset{(b0.cls, b0.entry.subject)})[(c, s)] == |Sessions(B - {b0}, c, s)| {
      if b0.cls == c && b0.entry.subject == s {
        assert Sessions(B - {b0}, c, s) == Sessions(B, c, s) - {b0};
        assert b0 in Sessions(B, c, s);
      } else {
        assert Sessions(B - {b0}, c, s) == Sessions(B, c, s);
      }
    }
  }

  lemma UncommitLoads(cfg: Config, tdl: multiset<(Name, Name)>, B: set<Booking>, b0: Booking)
    requires LoadsMatch(tdl, B) && LoadsBounded(cfg, tdl) && b0 in B
    ensures LoadsMatch(tdl - multiset{(b0.entry.teacher, DayOf(b0.slot))}, B - {b0})
    ensures LoadsBounded(cfg, tdl - multiset{(b0.entry.teacher, DayOf(b0.slot))})
  {
    var m := tdl - multiset{(b0.entry.teacher, DayOf(b0.slot))};
    forall t, d ensures m[(t, d)] == |DaySessions(B - {b0}, t, d)| {
      if b0.entry.teacher == t && DayOf(b0.slot) == d {
        assert DaySessions(B - {b0}, t, d) == DaySessions(B, t, d) - {b0};
        assert b0 in DaySessions(B, t, d);
      } else {
        assert DaySessions(B - {b0}, t, d) == DaySessions(B, t, d);
      }
    }
    forall p | p in m ensures m[p] <= cfg.maxDailyLoad {
      assert p in tdl;
    }
  }

  lemma UncommitTimes(cst: map<(Name, Name), seq<Name>>, B: set<Booking>, b0: Booking)
    requires TimesMatch(cst, B) && NoDoubleBooking(B) && b0 in B
    ensures (b0.cls, b0.entry.subject) in cst
    ensures TimesMatch(cst[(b0.cls, b0.entry.subject) :=
                         RemoveFirst(cst[(b0.cls, b0.entry.subject)], b0.slot)], B - {b0})
  {
    var key := (b0.cls, b0.entry.subject);
    var times := cst[key];
    var cst' := cst[key := RemoveFirst(times, b0.slot)];
    assert SessionSlots(B - {b0}, key.0, key.1) == SessionSlots(B, key.0, key.1) - {b0.slot};
    DistinctRemoveFirst(times, b0.slot);
    forall p | p in cst'
      ensures Distinct(cst'[p]) && SetOf(cst'[p]) == SessionSlots(B - {b0}, p.0, p.1)
    {
      if p != key {
        assert SessionSlots(B - {b0}, p.0, p.1) == SessionSlots(B, p.0, p.1);
      }
    }
  }

  lemma UncommitTeacherSchedule(ts: map<(Name, Name), (Name, Name)>, tb: set<(Name, Name)>,
                                B: set<Booking>, b0: Booking)
    requires TeacherScheduleMatch(ts, tb, B) && NoDoubleBooking(B) && b0 in B
    ensures TeacherScheduleMatch(ts - {(b0.entry.teacher, b0.slot)}, tb - {(b0.entry.teacher, b0.slot)},
                                 B - {b0})
  {
  }

  lemma UncommitLabRooms(cfg: Config, lrb: set<(Name, Name)>, B: set<Booking>, b0: Booking)
    requires LabRoomsMatch(cfg, lrb, B) && NoDoubleBooking(B) && b0 in B
    ensures LabRoomsMatch(cfg, if IsLabBooking(cfg, b0) then lrb - {(b0.slot, b0.entry.room)} else lrb,
                          B - {b0})
  {
    if IsLabBooking(cfg, b0) {
      assert LabSlots(cfg, B - {b0}) == LabSlots(cfg, B) - {(b0.slot, b0.entry.room)};
    } else {
      assert LabSlots(cfg, B - {b0}) == LabSlots(cfg, B);
    }
  }

  /** The timetable side of releasing: exactly the released cell goes. */
  lemma UncommitShape(cfg: Config, st: State, cls: Name, slot: Name)
    requires var B := Bookings(st.schedule);
             RowsWellFormed(st.schedule) && Sound(cfg, B) && NoDoubleBooking(B) &&
             IndexesMatch(st.teacherBookings, st.classBookings, st.roomBookings, B)
    requires HasKey(Row(st, cls), slot)
    ensures var e := Get(Row(st, cls), slot);
            var b0 := Booking(cls, slot, e);
            var rest := Remove(Row(st, cls), slot);
            var sch' := if rest == [] then st.schedule - {cls} else st.schedule[cls := rest];
            var B' := Bookings(sch');
            b0 in Bookings(st.schedule) && B' == Bookings(st.schedule) - {b0} &&
            RowsWellFormed(sch') && Sound(cfg, B') && NoDoubleBooking(B') &&
            IndexesMatch(st.teacherBookings - {(e.teacher, slot)}, st.classBookings - {(cls, slot)},
                         st.roomBookings - {(e.room, slot)}, B')
  {
    var row := Row(st, cls);
    var e := Get(row, slot);
    var b0 := Booking(cls, slot, e);
    var B := Bookings(st.schedule);
    UncommitBookings(st, cls, slot);
    var i :| 0 <= i < |row| && row[i] == (slot, e);
    assert b0 in B;
    RemoveWellFormed(row, slot);
    RemoveIndexes(B, b0);
  }

  /** The index side of releasing. */
  lemma UncommitTally(cfg: Config, st: State, b0: Booking)
    requires var B := Bookings(st.schedule);
             NoDoubleBooking(B) && b0 in B &&
             CountsMatch(st.scheduledCounts, B) && LoadsMatch(st.teacherDailyLoad, B) &&
             LoadsBounded(cfg, st.teacherDailyLoad) && TimesMatch(st.classSubjectTime, B) &&
             TeacherScheduleMatch(st.teacherSchedule, st.teacherBookings, B) &&
             LabRoomsMatch(cfg, st.labRoomBookings, B)
    ensures (b0.cls, b0.entry.subject) in st.classSubjectTime
    ensures var B' := Bookings(st.schedule) - {b0};
            var key := (b0.cls, b0.entry.subject);
            var tdl' := st.teacherDailyLoad - multiset{(b0.entry.teacher, DayOf(b0.slot))};
            CountsMatch(st.scheduledCounts - multiset{key}, B') &&
            LoadsMatch(tdl', B') && LoadsBounded(cfg, tdl') &&
            TimesMatch(st.classSubjectTime[key := RemoveFirst(st.classSubjectTime[key], b0.slot)], B') &&
            TeacherScheduleMatch(st.teacherSchedule - {(b0.entry.teacher, b0.slot)},
                                 st.teacherBookings - {(b0.entry.teacher, b0.slot)}, B') &&
            LabRoomsMatch(cfg, if IsLabBooking(cfg, b0) then st.labRoomBookings - {(b0.slot, b0.entry.room)}
                               else st.labRoomBookings, B')
  {
    var B := Bookings(st.schedule);
    UncommitCounts(st.scheduledCounts, B, b0);
    UncommitLoads(cfg, st.teacherDailyLoad, B, b0);
    UncommitTimes(st.classSubjectTime, B, b0);
    UncommitTeacherSchedule(st.teacherSchedule, st.teacherBookings, B, b0);
    UncommitLabRooms(cfg, st.labRoomBookings, B, b0);
  }

  /** unschedule_subject keeps every promise of the tracking structures, and the
      timetable loses exactly the released cell. */
  lemma UncommitValid(cfg: Config, st: State, cls: Name, slot: Name)
    requires ValidState(cfg, st) && HasKey(Row(st, cls), slot)
    ensures ValidState(cfg, Uncommit(cfg, st, cls, slot))
    ensures Bookings(Uncommit(cfg, st, cls, slot).schedule)
            == Bookings(st.schedule) - {Booking(cls, slot, Get(Row(st, cls), slot))}
  {
    var e := Get(Row(st, cls), slot);
    var b0 := Booking(cls, slot, e);
    UncommitShape(cfg, st, cls, slot);
    UncommitTally(cfg, st, b0);
    assert IsLabBooking(cfg, b0) <==> EndsWithLab(e.subject) && RoomKind(cfg, e.room) == "lab";
  }

  // ---------------------------------------------------------------------------
  // What is_valid_assignment decides, read off the timetable itself.

  lemma FreeMeaning(st: State, cls: Name, teacher: Name, room: Name, slot: Name)
    requires IndexesMatch(st.teacherBookings, st.classBookings, st.roomBookings, Bookings(st.schedule))
    ensures Free(st, cls, teacher, room, slot) <==>
            forall b :: b in Bookings(st.schedule) && b.slot == slot ==>
              b.entry.teacher != teacher && b.cls != cls && b.entry.room != room
  {
    var B := Bookings(st.schedule);
    if (teacher, slot) in st.teacherBookings {
      var b :| b in B && (b.entry.teacher, b.slot) == (teacher, slot);
    }
    if (cls, slot) in st.classBookings {
      var b :| b in B && (b.cls, b.slot) == (cls, slot);
    }
    if (room, slot) in st.roomBookings {
      var b :| b in B && (b.entry.room, b.slot) == (room, slot);
    }
    forall b | b in B && b.slot == slot
      ensures Free(st, cls, teacher, room, slot) ==>
                b.entry.teacher != teacher && b.cls != cls && b.entry.room != room
    {
      assert (b.entry.teacher, b.slot) in TeacherSlots(B);
      assert (b.cls, b.slot) in ClassSlots(B);
      assert (b.entry.room, b.slot) in RoomSlots(B);
    }
  }

  lemma TheoryBeforeMeaning(cfg: Config, st: State, cls: Name, subject: Name, slot: Name)
    requires TimesMatch(st.classSubjectTime, Bookings(st.schedule))
    ensures TheoryBefore(cfg, st, cls, subject, slot) <==>
            exists b :: b in Sessions(Bookings(st.schedule), cls, StripLab(subject)) &&
                        SlotIndex(cfg, b.slot) < SlotIndex(cfg, slot)
  {
    var B := Bookings(st.schedule);
    var key := (cls, StripLab(subject));
    if TheoryBefore(cfg, st, cls, subject, slot) {
      var times := st.classSubjectTime[key];
      var i :| 0 <= i < |times| && SlotIndex(cfg, times[i]) < SlotIndex(cfg, slot);
      assert times[i] in SetOf(times);
      var b :| b in B && b.cls == cls && b.entry.subject == StripLab(subject) && b.slot == times[i];
      assert b in Sessions(B, cls, StripLab(subject));
    }
    if exists b :: b in Sessions(B, cls, StripLab(subject)) && SlotIndex(cfg, b.slot) < SlotIndex(cfg, slot) {
      var b :| b in Sessions(B, cls, StripLab(subject)) && SlotIndex(cfg, b.slot) < SlotIndex(cfg, slot);
      var times := st.classSubjectTime[key];
      assert b.slot in SessionSlots(B, cls, StripLab(subject));
      assert b.slot in SetOf(times);
      var i :| 0 <= i < |times| && times[i] == b.slot;
    }
  }

  /** Against a valid state, is_valid_assignment accepts exactly the cells where
      teacher, class and room are all free, the teacher is qualified, the room
      is big enough and of an allowed type, the teacher has fewer sessions that
      day than the limit, and a lab comes after some session of its theory
      subject for the same class. */
  lemma ValidAssignmentMeaning(cfg: Config, st: State, cls: Name, subject: Name, teacher: Name,
                               room: Name, slot: Name)
    requires ValidState(cfg, st) && HasKey(cfg.rooms, room) && cls in cfg.sizes
    ensures var B := Bookings(st.schedule);
            var kind := Get(cfg.rooms, room).kind;
            IsValidAssignment(cfg, st, cls, subject, teacher, room, slot) <==>
            (forall b :: b in B && b.slot == slot ==>
               b.entry.teacher != teacher && b.cls != cls && b.entry.room != room) &&
            Qualified(cfg, teacher, subject) &&
            cfg.sizes[cls] <= Get(cfg.rooms, room).capacity &&
            (kind == "flex" || kind == RequiredType(cfg, subject)) &&
            (EndsWithLab(subject) && RequiredType(cfg, subject) == "lab" ==> kind == "lab") &&
            |DaySessions(B, teacher, DayOf(slot))| < cfg.maxDailyLoad &&
            (EndsWithLab(subject) ==>
               exists b :: b in Sessions(B, cls, StripLab(subject)) &&
                           SlotIndex(cfg, b.slot) < SlotIndex(cfg, slot))
  {
    FreeMeaning(st, cls, teacher, room, slot);
    TheoryBeforeMeaning(cfg, st, cls, subject, slot);
    assert st.teacherDailyLoad[(teacher, DayOf(slot))] == |DaySessions(Bookings(st.schedule), teacher, DayOf(slot))|;
  }

  // ---------------------------------------------------------------------------
  // Rolling a booking back.

  lemma CommitScheduleBack(sch: map<Name, OMap<Entry>>, cls: Name, slot: Name, e: Entry)
    requires cls in sch ==> sch[cls] != []
    requires !HasKey(if cls in sch then sch[cls] else [], slot)
    ensures var row := if cls in sch then sch[cls] else [];
            var sch' := sch[cls := row + [(slot, e)]];
            var rest := Remove(row + [(slot, e)], slot);
            (if rest == [] then sch' - {cls} else sch'[cls := rest]) == sch
  {
    var row := if cls in sch then sch[cls] else [];
    var sch' := sch[cls := row + [(slot, e)]];
    RemoveAppended(row, slot, e);
    if row == [] {
      assert cls !in sch;
      assert (sch' - {cls}).Keys == sch.Keys;
    } else {
      assert sch'[cls := row] == sch;
    }
  }

  /** The class row after booking holds the new entry, and deleting it gives
      the old row back. */
  lemma RowAfterCommit(cfg: Config, st: State, cls: Name, subject: Name, teacher: Name,
                       room: Name, slot: Name)
    requires !HasKey(Row(st, cls), slot)
    ensures var row1 := Row(Commit(cfg, st, cls, subject, teacher, room, slot), cls);
            HasKey(row1, slot) && Get(row1, slot) == Entry(subject, teacher, room) &&
            row1 == Row(st, cls) + [(slot, Entry(subject, teacher, room))]
  {
    var e := Entry(subject, teacher, room);
    PutGet(Row(st, cls), slot, e);
  }

  lemma RoundTripSchedule(cfg: Config, st: State, cls: Name, subject: Name, teacher: Name,
                          room: Name, slot: Name)
    requires cls in st.schedule ==> st.schedule[cls] != []
    requires !HasKey(Row(st, cls), slot)
    ensures HasKey(Row(Commit(cfg, st, cls, subject, teacher, room, slot), cls), slot)
    ensures Uncommit(cfg, Commit(cfg, st, cls, subject, teacher, room, slot), cls, slot).schedule
            == st.schedule
  {
    RowAfterCommit(cfg, st, cls, subject, teacher, room, slot);
    CommitScheduleBack(st.schedule, cls, slot, Entry(subject, teacher, room));
  }

  lemma RoundTripSets(cfg: Config, st: State, cls: Name, subject: Name, teacher: Name,
                      room: Name, slot: Name)
    requires Free(st, cls, teacher, room, slot)
    requires var row1 := Row(Commit(cfg, st, cls, subject, teacher, room, slot), cls);
             HasKey(row1, slot) && Get(row1, slot) == Entry(subject, teacher, room)
    ensures var st2 := Uncommit(cfg, Commit(cfg, st, cls, subject, teacher, room, slot), cls, slot);
            st2.teacherBookings == st.teacherBookings && st2.classBookings == st.classBookings &&
            st2.roomBookings == st.roomBookings
  {
  }

  lemma RoundTripTallies(cfg: Config, st: State, cls: Name, subject: Name, teacher: Name,
                         room: Name, slot: Name)
    requires var row1 := Row(Commit(cfg, st, cls, subject, teacher, room, slot), cls);
             HasKey(row1, slot) && Get(row1, slot) == Entry(subject, teacher, room)
    ensures var st2 := Uncommit(cfg, Commit(cfg, st, cls, subject, teacher, room, slot), cls, slot);
            st2.scheduledCounts == st.scheduledCounts && st2.teacherDailyLoad == st.teacherDailyLoad
  {
  }

  lemma RoundTripLabRooms(cfg: Config, st: State, cls: Name, subject: Name, teacher: Name,
                          room: Name, slot: Name)
    requires EndsWithLab(subject) && RoomKind(cfg, room) == "lab" ==> (slot, room) !in st.labRoomBookings
    requires var row1 := Row(Commit(cfg, st, cls, subject, teacher, room, slot), cls);
             HasKey(row1, slot) && Get(row1, slot) == Entry(subject, teacher, room)
    ensures Uncommit(cfg, Commit(cfg, st, cls, subject, teacher, room, slot), cls, slot).labRoomBookings
            == st.labRoomBookings
  {
  }

  lemma RoundTripTeacherSchedule(cfg: Config, st: State, cls: Name, subject: Name, teacher: Name,
                                 room: Name, slot: Name)
    requires (teacher, slot) !in st.teacherSchedule
    requires var row1 := Row(Commit(cfg, st, cls, subject, teacher, room, slot), cls);
             HasKey(row1, slot) && Get(row1, slot) == Entry(subject, teacher, room)
    ensures Uncommit(cfg, Commit(cfg, st, cls, subject, teacher, room, slot), cls, slot).teacherSchedule
            == st.teacherSchedule
  {
    UpdateThenRemove(st.teacherSchedule, (teacher, slot), (cls, subject));
  }

  lemma RoundTripTimes(cfg: Config, st: State, cls: Name, subject: Name, teacher: Name,
                       room: Name, slot: Name)
    requires slot !in TimesOf(st, cls, subject)
    requires var row1 := Row(Commit(cfg, st, cls, subject, teacher, room, slot), cls);
             HasKey(row1, slot) && Get(row1, slot) == Entry(subject, teacher, room)
    ensures Uncommit(cfg, Commit(cfg, st, cls, subject, teacher, room, slot), cls, slot).classSubjectTime
            == st.classSubjectTime[(cls, subject) := TimesOf(st, cls, subject)]
  {
    var times := TimesOf(st, cls, subject);
    RemoveFirstAppended(times, slot);
    UpdateTwice(st.classSubjectTime, (cls, subject), times + [slot], times);
  }

  /** The round trip on the fields, given the facts a legal cell provides. */
  lemma CommitUncommitFields(cfg: Config, st: State, cls: Name, subject: Name, teacher: Name,
                             room: Name, slot: Name)
    requires cls in st.schedule ==> st.schedule[cls] != []
    requires !HasKey(Row(st, cls), slot) && Free(st, cls, teacher, room, slot)
    requires slot !in TimesOf(st, cls, subject)
    requires (teacher, slot) !in st.teacherSchedule
    requires EndsWithLab(subject) && RoomKind(cfg, room) == "lab" ==> (slot, room) !in st.labRoomBookings
    ensures HasKey(Row(Commit(cfg, st, cls, subject, teacher, room, slot), cls), slot)
    ensures Uncommit(cfg, Commit(cfg, st, cls, subject, teacher, room, slot), cls, slot)
            == st.(classSubjectTime := st.classSubjectTime[(cls, subject) := TimesOf(st, cls, subject)])
  {
    RowAfterCommit(cfg, st, cls, subject, teacher, room, slot);
    RoundTripSchedule(cfg, st, cls, subject, teacher, room, slot);
    RoundTripSets(cfg, st, cls, subject, teacher, room, slot);
    RoundTripTallies(cfg, st, cls, subject, teacher, room, slot);
    RoundTripLabRooms(cfg, st, cls, subject, teacher, room, slot);
    RoundTripTeacherSchedule(cfg, st, cls, subject, teacher, room, slot);
    RoundTripTimes(cfg, st, cls, subject, teacher, room, slot);
  }

  lemma UpdateTwice<K, V>(m: map<K, V>, k: K, a: V, b: V)
    ensures m[k := a][k := b] == m[k := b]
  {
  }

  lemma UpdateThenRemove<K, V>(m: map<K, V>, k: K, v: V)
    requires k !in m
    ensures m[k := v] - {k} == m
  {
  }

  lemma CommitUncommitCore(cfg: Config, st: State, cls: Name, subject: Name, teacher: Name,
                           room: Name, slot: Name)
    requires var B := Bookings(st.schedule);
             RowsWellFormed(st.schedule) &&
             IndexesMatch(st.teacherBookings, st.classBookings, st.roomBookings, B) &&
             TimesMatch(st.classSubjectTime, B) &&
             TeacherScheduleMatch(st.teacherSchedule, st.teacherBookings, B) &&
             LabRoomsMatch(cfg, st.labRoomBookings, B)
    requires Free(st, cls, teacher, room, slot)
    ensures HasKey(Row(Commit(cfg, st, cls, subject, teacher, room, slot), cls), slot)
    ensures Uncommit(cfg, Commit(cfg, st, cls, subject, teacher, room, slot), cls, slot)
            == st.(classSubjectTime := st.classSubjectTime[(cls, subject) := TimesOf(st, cls, subject)])
  {
    var B := Bookings(st.schedule);
    FreshCell(st, Booking(cls, slot, Entry(subject, teacher, room)));
    var times := TimesOf(st, cls, subject);
    forall i | 0 <= i < |times| ensures times[i] != slot {
      assert times[i] in SetOf(times);
      var b :| b in B && b.cls == cls && b.entry.subject == subject && b.slot == times[i];
      assert (cls, b.slot) in ClassSlots(B);
    }
    forall p | p in st.labRoomBookings ensures p != (slot, room) {
      var b :| b in B && IsLabBooking(cfg, b) && (b.slot, b.entry.room) == p;
      assert (b.entry.room, b.slot) in RoomSlots(B);
    }
    CommitUncommitFields(cfg, st, cls, subject, teacher, room, slot);
  }

  /** Booking a legal assignment and then releasing its cell restores every
      tracking structure, except that the class's list of times for the
      subject may now exist and be empty, as it does after the same two calls
      in the source. */
  lemma CommitUncommit(cfg: Config, st: State, cls: Name, subject: Name, teacher: Name,
                       room: Name, slot: Name)
    requires ValidState(cfg, st) && HasKey(cfg.rooms, room) && cls in cfg.sizes
    requires IsValidAssignment(cfg, st, cls, subject, teacher, room, slot)
    ensures HasKey(Row(Commit(cfg, st, cls, subject, teacher, room, slot), cls), slot)
    ensures Uncommit(cfg, Commit(cfg, st, cls, subject, teacher, room, slot), cls, slot)
            == st.(classSubjectTime := st.classSubjectTime[(cls, subject) := TimesOf(st, cls, subject)])
  {
    assert Free(st, cls, teacher, room, slot);
    CommitUncommitCore(cfg, st, cls, subject, teacher, room, slot);
  }

  // ---------------------------------------------------------------------------
  // One lab room per slot.

  /** Booking keeps at most one lab room per slot when a lab room is only used
      at a slot where no lab room is taken yet, the test find_available_slot and
      schedule_any_teacher make before trying a room. */
  lemma CommitOneLab(cfg: Config, st: State, cls: Name, subject: Name, teacher: Name,
                     room: Name, slot: Name)
    requires OneLabPerSlot(st)
    requires RoomKind(cfg, room) == "lab" ==> !LabBusy(st, slot)
    ensures OneLabPerSlot(Commit(cfg, st, cls, subject, teacher, room, slot))
  {
  }

  lemma UncommitOneLab(cfg: Config, st: State, cls: Name, slot: Name)
    requires OneLabPerSlot(st) && HasKey(Row(st, cls), slot)
    ensures OneLabPerSlot(Uncommit(cfg, st, cls, slot))
  {
  }

  /** A booked cell is counted in scheduled_counts, so the decrement
      unschedule_subject makes never goes below zero. */
  lemma BookedIsCounted(cfg: Config, st: State, cls: Name, slot: Name)
    requires ValidState(cfg, st) && HasKey(Row(st, cls), slot)
    ensures (cls, Get(Row(st, cls), slot).subject) in st.scheduledCounts
  {
    var e := Get(Row(st, cls), slot);
    var B := Bookings(st.schedule);
    var b0 := Booking(cls, slot, e);
    assert cls in st.schedule;
    var i :| 0 <= i < |Row(st, cls)| && Row(st, cls)[i] == (slot, e);
    assert b0 in B;
    assert b0 in Sessions(B, cls, e.subject);
    assert st.scheduledCounts[(cls, e.subject)] == |Sessions(B, cls, e.subject)|;
  }
}
