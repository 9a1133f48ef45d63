/** The TimetableScheduler object: its configuration, fixed at construction,
    and the tracking structures its methods update in place.  Booking and
    releasing one cell are proved against Commit and Uncommit, and every method
    keeps the invariant ValidState. */
module Scheduling {
  import opened Names
  import opened Collections
  import opened OrderedMaps
  import opened Catalog
  import opened SubjectOrder
  import opened ScheduleState
  import opened Reporting

  /** The room filter shared by find_available_slot and schedule_any_teacher. */
  predicate Accepts(info: RoomInfo, size: int, required: string) {
    info.capacity >= size && (info.kind == "flex" || info.kind == required)
  }

  /** The rooms, in dictionary order, that pass the filter. */
  function RoomsFor(rooms: OMap<RoomInfo>, size: int, required: string): (r: seq<Name>)
    ensures forall x :: x in r ==> HasKey(rooms, x)
    ensures WellFormed(rooms) ==> forall x :: x in r ==> Accepts(Get(rooms, x), size, required)
    ensures forall i :: 0 <= i < |rooms| && Accepts(rooms[i].1, size, required) ==> rooms[i].0 in r
  {
    if rooms == [] then []
    else
      var rest := RoomsFor(rooms[1..], size, required);
      assert Keys(rooms) == [rooms[0].0] + Keys(rooms[1..]);
      assert forall i :: 0 < i < |rooms| ==> rooms[i] == rooms[1..][i - 1];
      TailGet(rooms);
      if Accepts(rooms[0].1, size, required) then [rooms[0].0] + rest else rest
  }

  lemma TailGet<V>(m: OMap<V>)
    requires |m| > 0
    ensures WellFormed(m) ==>
              (WellFormed(m[1..]) && forall x :: HasKey(m[1..], x) ==> Get(m, x) == Get(m[1..], x))
  {
    if WellFormed(m) {
      WellFormedTail(m);
      forall x | HasKey(m[1..], x) ensures Get(m, x) == Get(m[1..], x) {
        assert Keys(m) == [m[0].0] + Keys(m[1..]);
      }
    }
  }

  /** `self.rooms[r]['capacity']`, the key of the room sort. */
  function Capacity(cfg: Config, room: Name): int {
    if HasKey(cfg.rooms, room) then Get(cfg.rooms, room).capacity else 0
  }

  /** The room type find_available_slot asks for: 'lab' for every lab subject,
      the subject's own requirement otherwise. */
  function SearchType(cfg: Config, subject: Name): string {
    if EndsWithLab(subject) then "lab" else RequiredType(cfg, subject)
  }

  /** `suitable_rooms`: the accepted rooms, smallest first. */
  function SuitableRooms(cfg: Config, cls: Name, subject: Name): (r: seq<Name>)
    requires cls in cfg.sizes
    ensures SortedBy(r, room => Capacity(cfg, room))
    ensures forall x :: x in r ==> HasKey(cfg.rooms, x)
    ensures WellFormed(cfg.rooms) ==>
              forall x :: x in r ==> Accepts(Get(cfg.rooms, x), cfg.sizes[cls], SearchType(cfg, subject))
    ensures forall i :: 0 <= i < |cfg.rooms| && Accepts(cfg.rooms[i].1, cfg.sizes[cls], SearchType(cfg, subject))
              ==> cfg.rooms[i].0 in r
  {
    var found := RoomsFor(cfg.rooms, cfg.sizes[cls], SearchType(cfg, subject));
    var r := SortBy(found, room => Capacity(cfg, room));
    assert forall x :: x in r <==> x in found by {
      assert forall x :: x in r <==> x in multiset(r);
    }
    r
  }

  /** `sum(self.teacher_daily_load[t].values())`, the key of the teacher sort. */
  function Load(cfg: Config, st: State, t: Name): int {
    LoadTotal(st.teacherDailyLoad, t, Days(cfg.timeSlots))
  }

  /** The teachers of the list qualified for `subject`, in list order. */
  function QualifiedAmong(cfg: Config, ts: seq<Name>, subject: Name): (r: seq<Name>)
    ensures forall t :: multiset(r)[t] == if Qualified(cfg, t, subject) then multiset(ts)[t] else 0
  {
    if ts == [] then []
    else
      assert ts == [ts[0]] + ts[1..];
      (if Qualified(cfg, ts[0], subject) then [ts[0]] else []) + QualifiedAmong(cfg, ts[1..], subject)
  }

  /** get_qualified_teachers: the qualified teachers, least loaded first.  The
      second sort key, the number of free slots of the teacher, is the same
      for every teacher, so it never reorders. */
  function QualifiedTeachers(cfg: Config, st: State, subject: Name): (r: seq<Name>)
    ensures forall t :: multiset(r)[t] == if Qualified(cfg, t, subject) then multiset(cfg.teachers)[t] else 0
    ensures SortedBy(r, t => Load(cfg, st, t))
  {
    SortBy(QualifiedAmong(cfg, cfg.teachers, subject), t => Load(cfg, st, t))
  }

  /** A place find_available_slot may offer: a configured slot and a suitable
      room with no lab room taken at that slot if the room is a lab, where
      the assignment is legal. */
  predicate Offerable(cfg: Config, st: State, cls: Name, subject: Name, teacher: Name, slot: Name, room: Name)
    requires cls in cfg.sizes
  {
    slot in cfg.timeSlots && HasKey(cfg.rooms, room) &&
    Accepts(Get(cfg.rooms, room), cfg.sizes[cls], SearchType(cfg, subject)) &&
    !(Get(cfg.rooms, room).kind == "lab" && LabBusy(st, slot)) &&
    IsValidAssignment(cfg, st, cls, subject, teacher, room, slot)
  }


  /** What topological_sort_subjects promises about the order of `subjects`. */
  ghost predicate SortedSubjects(order: seq<Name>, subjects: seq<Name>, prereqs: map<Name, seq<Name>>) {
    Distinct(order) && multiset(order) == multiset(subjects) &&
    (Sortable(subjects, Edges(subjects, prereqs)) ==> IsTopoOrder(order, Edges(subjects, prereqs))) &&
    (!Sortable(subjects, Edges(subjects, prereqs)) ==> order == subjects)
  }

  lemma SortedUpdate(order: map<Name, seq<Name>>, a: map<Name, OMap<int>>,
                     prereqs: map<Name, seq<Name>>, cls: Name, o: seq<Name>)
    requires forall c :: c in order ==> c in a && SortedSubjects(order[c], Keys(a[c]), prereqs)
    requires cls in a && SortedSubjects(o, Keys(a[cls]), prereqs)
    ensures forall c :: c in order[cls := o] ==> c in a && SortedSubjects(order[cls := o][c], Keys(a[c]), prereqs)
  {
  }

  /** setup_subject_order: the subject order of every class. */
  method SetupSubjectOrder(classes: seq<Name>, a: map<Name, OMap<int>>, prereqs: map<Name, seq<Name>>)
    returns (order: map<Name, seq<Name>>)
    requires forall c :: c in classes ==> c in a && WellFormed(a[c])
    ensures forall c :: c in order <==> c in classes
    ensures forall c :: c in order ==> SortedSubjects(order[c], Keys(a[c]), prereqs)
  {
    order := map[];
    for i := 0 to |classes|
      invariant forall c :: c in order <==> c in classes[..i]
      invariant forall c :: c in order ==> c in a && SortedSubjects(order[c], Keys(a[c]), prereqs)
    {
      var cls := classes[i];
      var o := TopologicalSortSubjects(a, prereqs, cls);
      SortedUpdate(order, a, prereqs, cls, o);
      PrefixMembers(classes, i);
      order := order[cls := o];
    }
    assert classes[..|classes|] == classes;
  }

  /** The (class, subject) pairs of the sessions resolve_conflicts_aggressive
      has taken out and not yet put back. */
  function MovedPairs(cls: Name, moved: seq<(Name, Name, Name)>): multiset<(Name, Name)> {
    if moved == [] then multiset{}
    else MovedPairs(cls, moved[..|moved| - 1]) + multiset{(cls, moved[|moved| - 1].0)}
  }

  /** What a configuration that passes the constructor's checks gives every
      listed class: a positive size and a requirement map without repeats. */
  lemma ConfigSettled(cfg: Config)
    requires Construct(cfg).Pass?
    ensures forall c :: c in cfg.classes ==> SizedClass(cfg, c)
    ensures forall c :: c in cfg.classes ==>
              c in SubjectAssignments(cfg) && WellFormed(SubjectAssignments(cfg)[c])
  {
    assert InputsValid(cfg);
    ExpandShape(cfg.credits);
    forall c | c in cfg.classes ensures SizedClass(cfg, c) && c in SetOf(cfg.classes) {
      var i :| 0 <= i < |cfg.classes| && cfg.classes[i] == c;
    }
  }

  /** Before anything is booked every count is zero, and every requirement
      drawn from subject_credits is positive, so no count exceeds its
      requirement: the starting point of generate_timetable's bound. */
  lemma InitialWithin(cfg: Config)
    ensures HasRequirements(cfg.classes, SubjectAssignments(cfg))
    ensures WithinRequirements(cfg.classes, SubjectAssignments(cfg), Initial.scheduledCounts)
  {
    var a := SubjectAssignments(cfg);
    ExpandShape(cfg.credits);
    forall c | c in cfg.classes ensures PositiveValues(a[c]) {
      assert c in SetOf(cfg.classes);
    }
  }

  /** Booking a session of a subject still short of its requirement keeps every
      count within its requirement. */
  lemma WithinAfterPlacing(classes: seq<Name>, a: map<Name, OMap<int>>, sc: multiset<(Name, Name)>,
                           cls: Name, subject: Name)
    requires HasRequirements(classes, a) && WithinRequirements(classes, a, sc)
    requires cls in a && WellFormed(a[cls]) && HasKey(a[cls], subject)
    requires sc[(cls, subject)] < Get(a[cls], subject)
    ensures WithinRequirements(classes, a, sc + multiset{(cls, subject)})
  {
    var sc' := sc + multiset{(cls, subject)};
    forall c, i | c in classes && 0 <= i < |a[c]| ensures sc'[(c, a[c][i].0)] <= a[c][i].1 {
      if (c, a[c][i].0) == (cls, subject) {
        GetAt(a[cls], i);
      }
    }
  }

  /** What booking `nb` does to the timetable: the new cell joins it, the count
      of its class and subject goes up by one, and no other class's row moves. */
  ghost predicate Added(s: State, s': State, nb: Booking) {
    nb !in Bookings(s.schedule) && Bookings(s'.schedule) == Bookings(s.schedule) + {nb} &&
    s'.scheduledCounts == s.scheduledCounts + multiset{(nb.cls, nb.entry.subject)} &&
    forall c :: c != nb.cls ==> Row(s', c) == Row(s, c)
  }

  /** What releasing `b0` does: the cell leaves the timetable, its count goes
      down by one, and no other class's row moves. */
  ghost predicate Dropped(s: State, s': State, b0: Booking) {
    Bookings(s'.schedule) == Bookings(s.schedule) - {b0} &&
    s'.scheduledCounts + multiset{(b0.cls, b0.entry.subject)} == s.scheduledCounts &&
    forall c :: c != b0.cls ==> Row(s', c) == Row(s, c)
  }

  lemma TakeAndPutBack<T>(m: multiset<T>, x: T)
    requires x in m
    ensures (m - multiset{x}) + multiset{x} == m
  {
  }

  lemma CommitOtherRows(cfg: Config, st: State, cls: Name, subject: Name, teacher: Name, room: Name, slot: Name)
    ensures forall c :: c != cls ==> Row(Commit(cfg, st, cls, subject, teacher, room, slot), c) == Row(st, c)
  {
  }

  lemma UncommitOtherRows(cfg: Config, st: State, cls: Name, slot: Name)
    requires HasKey(Row(st, cls), slot)
    ensures forall c :: c != cls ==> Row(Uncommit(cfg, st, cls, slot), c) == Row(st, c)
  {
  }

  /** Booking a legal cell adds exactly that cell. */
  lemma CommitAdds(cfg: Config, st: State, cls: Name, subject: Name, teacher: Name, room: Name, slot: Name)
    requires ValidState(cfg, st) && HasKey(cfg.rooms, room) && cls in cfg.sizes && slot in cfg.timeSlots
    requires IsValidAssignment(cfg, st, cls, subject, teacher, room, slot)
    ensures Added(st, Commit(cfg, st, cls, subject, teacher, room, slot), Booking(cls, slot, Entry(subject, teacher, room)))
  {
    assert Free(st, cls, teacher, room, slot);
    FreshCell(st, Booking(cls, slot, Entry(subject, teacher, room)));
    CommitBookings(st, cls, slot, Entry(subject, teacher, room));
    CommitOtherRows(cfg, st, cls, subject, teacher, room, slot);
  }

  /** Releasing a booked cell removes exactly that cell. */
  lemma UncommitDrops(cfg: Config, st: State, cls: Name, slot: Name)
    requires ValidState(cfg, st) && HasKey(Row(st, cls), slot)
    ensures Dropped(st, Uncommit(cfg, st, cls, slot), Booking(cls, slot, Get(Row(st, cls), slot)))
  {
    UncommitBookings(st, cls, slot);
    UncommitOtherRows(cfg, st, cls, slot);
    BookedIsCounted(cfg, st, cls, slot);
    TakeAndPutBack(st.scheduledCounts, (cls, Get(Row(st, cls), slot).subject));
  }

  /** How many sessions of (cls, subject) were added from `s0` to `s`. */
  function Gain(s0: State, s: State, cls: Name, subject: Name): int {
    s.scheduledCounts[(cls, subject)] as int - s0.scheduledCounts[(cls, subject)] as int
  }

  /** The count of (cls, subject) did not go down, every other count stayed,
      and no other class's row moved. */
  ghost predicate Raised(s0: State, s: State, cls: Name, subject: Name) {
    s0.scheduledCounts[(cls, subject)] <= s.scheduledCounts[(cls, subject)] &&
    s.scheduledCounts == s0.scheduledCounts[(cls, subject) := s.scheduledCounts[(cls, subject)]] &&
    forall c :: c != cls ==> Row(s, c) == Row(s0, c)
  }

  /** Raised, and only sessions of (cls, subject) were added, none removed. */
  ghost predicate Grew(s0: State, s: State, cls: Name, subject: Name) {
    Raised(s0, s, cls, subject) &&
    Bookings(s0.schedule) <= Bookings(s.schedule) &&
    forall b :: b in Bookings(s.schedule) && b !in Bookings(s0.schedule) ==>
                b.cls == cls && b.entry.subject == subject
  }

  lemma GrewStart(s0: State, cls: Name, subject: Name)
    ensures Grew(s0, s0, cls, subject) && Gain(s0, s0, cls, subject) == 0
  {
    assert s0.scheduledCounts[(cls, subject) := s0.scheduledCounts[(cls, subject)]] == s0.scheduledCounts;
  }

  lemma AddedGrew(s0: State, s: State, nb: Booking)
    requires Added(s0, s, nb)
    ensures Grew(s0, s, nb.cls, nb.entry.subject)
    ensures Gain(s0, s, nb.cls, nb.entry.subject) == 1
  {
  }

  lemma GrewThen(s0: State, s1: State, s2: State, cls: Name, subject: Name)
    requires Grew(s0, s1, cls, subject) && Grew(s1, s2, cls, subject)
    ensures Grew(s0, s2, cls, subject)
    ensures Gain(s0, s2, cls, subject) == Gain(s0, s1, cls, subject) + Gain(s1, s2, cls, subject)
  {
  }

  lemma RaisedStep(s0: State, s: State, s': State, cls: Name, subject: Name)
    requires Raised(s0, s, cls, subject)
    requires s'.scheduledCounts == s.scheduledCounts + multiset{(cls, subject)}
    requires forall c :: c != cls ==> Row(s', c) == Row(s, c)
    ensures Raised(s0, s', cls, subject)
    ensures Gain(s0, s', cls, subject) == Gain(s0, s, cls, subject) + 1
  {
  }

  lemma RaisedThen(s0: State, s1: State, s2: State, cls: Name, subject: Name)
    requires Raised(s0, s1, cls, subject) && Raised(s1, s2, cls, subject)
    ensures Raised(s0, s2, cls, subject)
    ensures Gain(s0, s2, cls, subject) == Gain(s0, s1, cls, subject) + Gain(s1, s2, cls, subject)
  {
  }

  /** Taking one more session out keeps the counts plus the pairs taken out
      as they were. */
  lemma MovedPairsTake(after: multiset<(Name, Name)>, before: multiset<(Name, Name)>, cls: Name,
                       moved: seq<(Name, Name, Name)>, x: (Name, Name, Name))
    requires after + multiset{(cls, x.0)} == before
    ensures after + MovedPairs(cls, moved + [x]) == before + MovedPairs(cls, moved)
  {
    assert (moved + [x])[..|moved|] == moved;
  }

  lemma MovedPairsPrefix(base: multiset<(Name, Name)>, counts: multiset<(Name, Name)>,
                         cls: Name, moved: seq<(Name, Name, Name)>, j: int)
    requires 0 <= j < |moved|
    requires counts == base + MovedPairs(cls, moved[..j]) + multiset{(cls, moved[j].0)}
    ensures counts == base + MovedPairs(cls, moved[..j + 1])
  {
    assert moved[..j + 1][..j] == moved[..j];
  }

  /** Booking the target on top of counts that balance the saved ones adds
      the target to the balance. */
  lemma BalanceAdd<T>(taken: multiset<T>, booked: multiset<T>, moved: multiset<T>,
                      saved: multiset<T>, target: multiset<T>)
    requires taken + moved == saved && booked == taken + target
    ensures booked + moved == saved + target
  {
  }

  class Scheduler {
    const cfg: Config
    const assignments: map<Name, OMap<int>>
    const subjectOrder: map<Name, seq<Name>>

    /** The tracking structures: schedule, teacher_bookings, class_bookings,
        room_bookings, scheduled_counts, teacher_daily_load,
        class_subject_time, teacher_schedule and lab_room_bookings. */
    var st: State

    /** What the constructor establishes about the configuration. */
    predicate Settled() {
      DictsWellFormed(cfg) && (forall c :: c in cfg.classes ==> SizedClass(cfg, c)) &&
      assignments == SubjectAssignments(cfg) &&
      (forall c :: c in cfg.classes ==> c in assignments && WellFormed(assignments[c])) &&
      (forall c :: c in cfg.classes ==> c in subjectOrder)
    }

    ghost predicate Valid()
      reads this
    {
      Settled() && ValidState(cfg, st)
    }

    /** The constructor: the checks of Construct must pass (the source raises
        ValueError otherwise).  Nothing is booked, and the subject order of
        every class is its topological order when one exists. */
    constructor (cfg0: Config)
      requires Construct(cfg0).Pass? && DictsWellFormed(cfg0)
      ensures cfg == cfg0 && assignments == SubjectAssignments(cfg0)
      ensures Valid() && st == Initial
      ensures WithinRequirements(cfg0.classes, assignments, st.scheduledCounts)
      ensures forall c :: c in cfg0.classes ==>
                c in subjectOrder && SortedSubjects(subjectOrder[c], Keys(assignments[c]), cfg0.prereqs)
    {
      var a := SubjectAssignments(cfg0);
      ConfigSettled(cfg0);
      var order := SetupSubjectOrder(cfg0.classes, a, cfg0.prereqs);
      cfg := cfg0;
      assignments := a;
      subjectOrder := order;
      st := Initial;
      new;
      InitialValid(cfg0);
      InitialWithin(cfg0);
    }

    /** schedule_subject: books the cell when is_valid_assignment accepts it,
        and changes nothing otherwise.  The room must be configured and the
        slot one of time_slots, as at every call in the source. */
    method ScheduleSubject(cls: Name, subject: Name, teacher: Name, room: Name, slot: Name)
      returns (ok: bool)
      requires Valid() && HasKey(cfg.rooms, room) && cls in cfg.sizes && slot in cfg.timeSlots
      modifies this
      ensures Valid()
      ensures ok == IsValidAssignment(cfg, old(st), cls, subject, teacher, room, slot)
      ensures st == if ok then Commit(cfg, old(st), cls, subject, teacher, room, slot) else old(st)
      ensures ok ==> Added(old(st), st, Booking(cls, slot, Entry(subject, teacher, room)))
    {
      var s := st;
      ok := IsValidAssignment(cfg, s, cls, subject, teacher, room, slot);
      if ok {
        CommitValid(cfg, s, cls, subject, teacher, room, slot);
        CommitAdds(cfg, s, cls, subject, teacher, room, slot);
        st := Commit(cfg, s, cls, subject, teacher, room, slot);
      }
    }

    /** unschedule_subject: releases the cell when it is booked, and reports
        false with no change otherwise. */
    method UnscheduleSubject(cls: Name, slot: Name) returns (ok: bool)
      requires Valid()
      modifies this
      ensures Valid()
      ensures ok == HasKey(Row(old(st), cls), slot)
      ensures st == if ok then Uncommit(cfg, old(st), cls, slot) else old(st)
      ensures ok ==> Dropped(old(st), st, Booking(cls, slot, Get(Row(old(st), cls), slot)))
    {
      var s := st;
      ok := HasKey(Row(s, cls), slot);
      if ok {
        UncommitValid(cfg, s, cls, slot);
        UncommitDrops(cfg, s, cls, slot);
        st := Uncommit(cfg, s, cls, slot);
      }
    }

    /** create_backup_state */
    method CreateBackupState() returns (backup: State)
      ensures backup == st
    {
      backup := st;
    }

    /** restore_backup_state */
    method RestoreBackupState(backup: State)
      modifies this
      ensures st == backup
    {
      st := backup;
    }

    /** find_available_slot: slots in an arbitrary order (random.sample), the
        suitable rooms smallest first, lab rooms skipped at a slot whose lab
        room is taken.  Whether a legal candidate replaces the best one so far
        depends on calculate_slot_score, which is not modelled: the choice is
        left open.  Whatever is returned is a legal place. */
    method FindAvailableSlot(cls: Name, subject: Name, teacher: Name) returns (r: Option<(Name, Name)>)
      requires cls in cfg.sizes && WellFormed(cfg.rooms)
      ensures r.Some? ==> Offerable(cfg, st, cls, subject, teacher, r.value.0, r.value.1)
    {
      var s := st;
      var rooms := SuitableRooms(cfg, cls, subject);
      if rooms == [] {
        return None;
      }
      assert multiset(cfg.timeSlots) == multiset(cfg.timeSlots);
      var slots: seq<Name> :| multiset(slots) == multiset(cfg.timeSlots);
      r := None;
      for i := 0 to |slots|
        invariant r.Some? ==> Offerable(cfg, s, cls, subject, teacher, r.value.0, r.value.1)
      {
        var slot := slots[i];
        assert slot in multiset(cfg.timeSlots);
        for j := 0 to |rooms|
          invariant r.Some? ==> Offerable(cfg, s, cls, subject, teacher, r.value.0, r.value.1)
        {
          var room := rooms[j];
          var info := Get(cfg.rooms, room);
          if !(info.kind == "lab" && LabBusy(s, slot)) &&
             IsValidAssignment(cfg, s, cls, subject, teacher, room, slot) {
            var better: bool :| true;
            if better {
              r := Some((slot, room));
            }
          }
        }
      }
    }

    /** The loop the source writes out at four places: each teacher in turn
        asks find_available_slot for a place and the first successful booking
        ends the loop.  Reports the booking made, if any. */
    method TryTeachers(cls: Name, subject: Name, teachers: seq<Name>)
      returns (placed: Option<(Name, Name, Name)>)
      requires Valid() && cls in cfg.sizes
      modifies this
      ensures Valid()
      ensures placed.None? ==> st == old(st)
      ensures placed.Some? ==> placed.value.0 in teachers
      ensures placed.Some? ==>
                var (teacher, slot, room) := placed.value;
                Offerable(cfg, old(st), cls, subject, teacher, slot, room) &&
                st == Commit(cfg, old(st), cls, subject, teacher, room, slot) &&
                Added(old(st), st, Booking(cls, slot, Entry(subject, teacher, room)))
    {
      placed := None;
      for i := 0 to |teachers|
        invariant Valid() && st == old(st)
      {
        var found := FindAvailableSlot(cls, subject, teachers[i]);
        if found.Some? {
          var (slot, room) := found.value;
          var ok := ScheduleSubject(cls, subject, teachers[i], room, slot);
          if ok {
            placed := Some((teachers[i], slot, room));
            return;
          }
        }
      }
    }

    /** One room of schedule_any_teacher's search: the room is tried when it
        passes the filter, which uses the subject's own room requirement also
        for labs, and is not a lab room at a slot where a lab room is taken. */
    method TryRoom(cls: Name, subject: Name, teacher: Name, slot: Name, k: int) returns (booked: bool)
      requires Valid() && cls in cfg.sizes && slot in cfg.timeSlots && 0 <= k < |cfg.rooms|
      modifies this
      ensures Valid() && Grew(old(st), st, cls, subject)
      ensures Gain(old(st), st, cls, subject) == if booked then 1 else 0
      ensures booked <==>
                var (room, info) := cfg.rooms[k];
                Accepts(info, cfg.sizes[cls], RequiredType(cfg, subject)) &&
                !(info.kind == "lab" && LabBusy(old(st), slot)) &&
                IsValidAssignment(cfg, old(st), cls, subject, teacher, room, slot)
    {
      ghost var s0 := st;
      var (room, info) := cfg.rooms[k];
      booked := false;
      if Accepts(info, cfg.sizes[cls], RequiredType(cfg, subject)) && !(info.kind == "lab" && LabBusy(st, slot)) {
        GetAt(cfg.rooms, k);
        booked := ScheduleSubject(cls, subject, teacher, room, slot);
        if booked {
          AddedGrew(s0, st, Booking(cls, slot, Entry(subject, teacher, room)));
          return;
        }
      }
      GrewStart(s0, cls, subject);
    }

    /** The room loop of schedule_any_teacher at one slot: every room in
        dictionary order that passes the filter, which uses the subject's own
        room requirement also for labs, with lab rooms skipped when a lab room
        is taken at the slot.  Each successful booking lowers `left`; reaching
        zero ends the search (`done`). */
    method BookAtSlot(cls: Name, subject: Name, teacher: Name, slot: Name, left: int)
      returns (left': int, done: bool)
      requires Valid() && cls in cfg.sizes && slot in cfg.timeSlots
      modifies this
      ensures Valid() && Grew(old(st), st, cls, subject)
      ensures Gain(old(st), st, cls, subject) == left - left'
      ensures done ==> left > 0 && left' == 0
      ensures !done && left > 0 ==> left' > 0
    {
      ghost var s0 := st;
      GrewStart(s0, cls, subject);
      left' := left;
      done := false;
      for k := 0 to |cfg.rooms|
        invariant Valid() && Grew(s0, st, cls, subject)
        invariant Gain(s0, st, cls, subject) == left - left'
        invariant left > 0 ==> left' > 0
      {
        ghost var before := st;
        var booked := TryRoom(cls, subject, teacher, slot, k);
        GrewThen(s0, before, st, cls, subject);
        if booked {
          left' := left' - 1;
          if left' == 0 {
            return left', true;
          }
        }
      }
    }

    /** The slot loop of schedule_any_teacher for one teacher, in time_slots order. */
    method BookTeacher(cls: Name, subject: Name, teacher: Name, left: int)
      returns (left': int, done: bool)
      requires Valid() && cls in cfg.sizes
      modifies this
      ensures Valid() && Grew(old(st), st, cls, subject)
      ensures Gain(old(st), st, cls, subject) == left - left'
      ensures done ==> left > 0 && left' == 0
      ensures !done && left > 0 ==> left' > 0
    {
      ghost var s0 := st;
      GrewStart(s0, cls, subject);
      left' := left;
      done := false;
      for j := 0 to |cfg.timeSlots|
        invariant Valid() && Grew(s0, st, cls, subject)
        invariant Gain(s0, st, cls, subject) == left - left'
        invariant left > 0 ==> left' > 0
      {
        ghost var before := st;
        var rest, hit := BookAtSlot(cls, subject, teacher, cfg.timeSlots[j], left');
        GrewThen(s0, before, st, cls, subject);
        left' := rest;
        if hit {
          return left', true;
        }
      }
    }

    /** schedule_any_teacher: the qualified teachers in list order, each trying
        every slot and room until `remaining` sessions are booked.  Sessions
        booked before the attempt gives up stay booked. */
    method ScheduleAnyTeacher(cls: Name, subject: Name, remaining: int) returns (ok: bool)
      requires Valid() && cls in cfg.sizes
      modifies this
      ensures Valid() && Grew(old(st), st, cls, subject)
      ensures ok ==> remaining > 0 && Gain(old(st), st, cls, subject) == remaining
      ensures !ok && remaining > 0 ==> Gain(old(st), st, cls, subject) < remaining
    {
      ghost var s0 := st;
      GrewStart(s0, cls, subject);
      var left := remaining;
      for i := 0 to |cfg.teachers|
        invariant Valid() && Grew(s0, st, cls, subject)
        invariant Gain(s0, st, cls, subject) == remaining - left
        invariant remaining > 0 ==> left > 0
      {
        var teacher := cfg.teachers[i];
        if Qualified(cfg, teacher, subject) {
          ghost var before := st;
          var rest, hit := BookTeacher(cls, subject, teacher, left);
          GrewThen(s0, before, st, cls, subject);
          left := rest;
          if hit {
            return true;
          }
        }
      }
      return false;
    }

    /** The teacher loop of schedule_subject_sessions and
        resolve_conflicts_aggressive, seen from the counts: one more session of
        (cls, subject) and no other class touched, or no change at all. */
    method PlaceWith(cls: Name, subject: Name, teachers: seq<Name>) returns (placed: bool)
      requires Valid() && cls in cfg.sizes
      modifies this
      ensures Valid()
      ensures !placed ==> st == old(st)
      ensures placed ==> st.scheduledCounts == old(st).scheduledCounts + multiset{(cls, subject)}
      ensures placed ==> forall c :: c != cls ==> Row(st, c) == Row(old(st), c)
    {
      var found := TryTeachers(cls, subject, teachers);
      placed := found.Some?;
    }

    /** The second half of resolve_conflicts_aggressive: every session taken
        out is booked again, in the order taken, with the first qualified
        teacher and free slot and room that accept it; `all` is false as soon
        as one of them cannot be placed. */
    method RescheduleMoved(cls: Name, moved: seq<(Name, Name, Name)>) returns (all: bool)
      requires Valid() && cls in cfg.sizes
      modifies this
      ensures Valid()
      ensures all ==> st.scheduledCounts == old(st).scheduledCounts + MovedPairs(cls, moved)
      ensures forall c :: c != cls ==> Row(st, c) == Row(old(st), c)
    {
      ghost var s0 := st;
      for j := 0 to |moved|
        invariant Valid()
        invariant st.scheduledCounts == s0.scheduledCounts + MovedPairs(cls, moved[..j])
        invariant forall c :: c != cls ==> Row(st, c) == Row(s0, c)
      {
        var again := PlaceWith(cls, moved[j].0, QualifiedTeachers(cfg, st, moved[j].0));
        if !again {
          return false;
        }
        MovedPairsPrefix(s0.scheduledCounts, st.scheduledCounts, cls, moved, j);
      }
      assert moved[..|moved|] == moved;
      return true;
    }

    /** One attempt of resolve_conflicts_aggressive: the session at `slot` is
        taken out unless the slot is empty or it is a lab session and the
        target is not a lab.  The result is what was taken out, as
        (subject, teacher, slot). */
    method TakeOut(cls: Name, target: Name, slot: Name) returns (out: Option<(Name, Name, Name)>)
      requires Valid()
      modifies this
      ensures Valid()
      ensures out.None? <==>
                !HasKey(Row(old(st), cls), slot) ||
                (EndsWithLab(Get(Row(old(st), cls), slot).subject) && !EndsWithLab(target))
      ensures out.None? ==> st == old(st)
      ensures out.Some? ==>
                var e := Get(Row(old(st), cls), slot);
                out.value == (e.subject, e.teacher, slot) &&
                st == Uncommit(cfg, old(st), cls, slot) &&
                st.scheduledCounts + multiset{(cls, e.subject)} == old(st).scheduledCounts &&
                forall c :: c != cls ==> Row(st, c) == Row(old(st), c)
    {
      if !HasKey(Row(st, cls), slot) {
        return None;
      }
      var e := Get(Row(st, cls), slot);
      if EndsWithLab(e.subject) && !EndsWithLab(target) {
        return None;
      }
      var _ := UnscheduleSubject(cls, slot);
      return Some((e.subject, e.teacher, slot));
    }

    /** resolve_conflicts_aggressive: takes out up to three of the class's
        sessions (in an arbitrary order, as random.shuffle leaves it; labs only
        for a lab target), tries to book the target after each, and once it is
        booked puts every session taken out back somewhere.  Any failure
        restores the state saved at the start. */
    method ResolveConflictsAggressive(cls: Name, subject: Name) returns (ok: bool)
      requires Valid() && cls in cfg.sizes
      modifies this
      ensures Valid()
      ensures !ok ==> st == old(st)
      ensures ok ==> st.scheduledCounts == old(st).scheduledCounts + multiset{(cls, subject)}
      ensures ok ==> forall c :: c != cls ==> Row(st, c) == Row(old(st), c)
    {
      var backup := CreateBackupState();
      var keys := Keys(Row(st, cls));
      assert multiset(keys) == multiset(keys);
      var slots: seq<Name> :| multiset(slots) == multiset(keys);
      var moved: seq<(Name, Name, Name)> := [];
      var bound := if |slots| < 3 then |slots| else 3;
      for attempt := 0 to bound
        invariant Valid()
        invariant st.scheduledCounts + MovedPairs(cls, moved) == backup.scheduledCounts
        invariant forall c :: c != cls ==> Row(st, c) == Row(backup, c)
      {
        var placed;
        moved, placed := TakeOutAndPlace(cls, subject, slots[attempt], moved);
        if placed {
          var all := RescheduleMoved(cls, moved);
          if all {
            return true;
          }
          RestoreBackupState(backup);
          return false;
        }
      }
      RestoreBackupState(backup);
      return false;
    }

    /** The body of one attempt of resolve_conflicts_aggressive: take the
        session at `slot` out (see TakeOut), remember it in `moved`, and try to
        book the target with the first qualified teacher that finds a free slot
        and room. */
    method TakeOutAndPlace(cls: Name, subject: Name, slot: Name, moved: seq<(Name, Name, Name)>)
      returns (moved': seq<(Name, Name, Name)>, placed: bool)
      requires Valid() && cls in cfg.sizes
      modifies this
      ensures Valid()
      ensures st.scheduledCounts + MovedPairs(cls, moved') ==
              old(st).scheduledCounts + MovedPairs(cls, moved) +
              (if placed then multiset{(cls, subject)} else multiset{})
      ensures forall c :: c != cls ==> Row(st, c) == Row(old(st), c)
    {
      moved' := moved;
      placed := false;
      var out := TakeOut(cls, subject, slot);
      if out.None? {
        assert old(st).scheduledCounts + MovedPairs(cls, moved) + multiset{} ==
               old(st).scheduledCounts + MovedPairs(cls, moved);
        return;
      }
      ghost var kept := old(st).scheduledCounts + MovedPairs(cls, moved);
      MovedPairsTake(st.scheduledCounts, old(st).scheduledCounts, cls, moved, out.value);
      moved' := moved + [out.value];
      ghost var taken := st;
      placed := PlaceWith(cls, subject, QualifiedTeachers(cfg, st, subject));
      if placed {
        BalanceAdd(taken.scheduledCounts, st.scheduledCounts, MovedPairs(cls, moved'),
                   kept, multiset{(cls, subject)});
      } else {
        assert kept + multiset{} == kept;
      }
    }

    /** schedule_subject_sessions: while sessions are missing and attempts
        remain, one booking by the first teacher that gets one, else one
        conflict resolution, else stop; then the emergency booking with any
        teacher.  The result counts the sessions it reports; when the
        emergency attempt gives up, the sessions it did book are counted in
        scheduled_counts but not in the result. */
    method ScheduleSubjectSessions(cls: Name, subject: Name, required: int) returns (scheduled: int)
      requires Valid() && cls in cfg.sizes
      modifies this
      ensures Valid()
      ensures 0 <= scheduled && (required > 0 ==> scheduled <= required) && (required <= 0 ==> scheduled == 0)
      ensures Raised(old(st), st, cls, subject) && Gain(old(st), st, cls, subject) >= scheduled
      ensures QualifiedTeachers(cfg, old(st), subject) == [] ==> scheduled == 0 && st == old(st)
    {
      var qualified := QualifiedTeachers(cfg, st, subject);
      if qualified == [] {
        return 0;
      }
      ghost var s0 := st;
      scheduled := BookRepeatedly(cls, subject, required, qualified);
      if scheduled < required {
        var remaining := required - scheduled;
        ghost var before := st;
        var ok := ScheduleAnyTeacher(cls, subject, remaining);
        RaisedThen(s0, before, st, cls, subject);
        if ok {
          scheduled := scheduled + remaining;
        }
      }
    }

    /** The main loop of schedule_subject_sessions: while sessions are missing
        and attempts remain, one booking by the first teacher that gets one,
        else one conflict resolution, else stop. */
    method BookRepeatedly(cls: Name, subject: Name, required: int, qualified: seq<Name>)
      returns (scheduled: int)
      requires Valid() && cls in cfg.sizes
      modifies this
      ensures Valid()
      ensures 0 <= scheduled && (required > 0 ==> scheduled <= required) && (required <= 0 ==> scheduled == 0)
      ensures Raised(old(st), st, cls, subject) && Gain(old(st), st, cls, subject) == scheduled
    {
      ghost var s0 := st;
      GrewStart(s0, cls, subject);
      scheduled := 0;
      var attempts := 0;
      while scheduled < required && attempts < cfg.maxAttempts
        invariant Valid()
        invariant 0 <= scheduled && (required > 0 ==> scheduled <= required) && (required <= 0 ==> scheduled == 0)
        invariant Raised(s0, st, cls, subject) && Gain(s0, st, cls, subject) == scheduled
        decreases cfg.maxAttempts - attempts
      {
        attempts := attempts + 1;
        ghost var before := st;
        var placed := PlaceWith(cls, subject, qualified);
        if placed {
          RaisedStep(s0, before, st, cls, subject);
          scheduled := scheduled + 1;
        } else {
          var resolved := ResolveConflictsAggressive(cls, subject);
          if resolved {
            RaisedStep(s0, before, st, cls, subject);
            scheduled := scheduled + 1;
          } else {
            break;
          }
        }
      }
    }

    /** Only sessions of required subjects of the configured classes were added. */
    ghost predicate Extends(s0: State, s: State)
      requires Settled()
    {
      Bookings(s0.schedule) <= Bookings(s.schedule) &&
      forall b :: b in Bookings(s.schedule) && b !in Bookings(s0.schedule) ==>
                  b.cls in cfg.classes && HasKey(assignments[b.cls], b.entry.subject)
    }

    /** generate_timetable: rounds over the classes not yet done, in an order
        left open (the class priorities are floats, not modelled); each class
        books at most one session of its first subject, in subject order, that
        is still short of its requirement and has a qualified teacher, and after
        the first booking of a round every later class stops at its first such
        subject.  A class whose subjects all pass without that stop is done.
        Rounds end when every class is done, a round books nothing, or after
        1000 rounds. */
    method GenerateTimetable()
      requires Valid()
      modifies this
      ensures Valid()
      ensures Extends(old(st), st)
      ensures WithinRequirements(cfg.classes, assignments, old(st).scheduledCounts) ==>
                WithinRequirements(cfg.classes, assignments, st.scheduledCounts)
    {
      ghost var s0 := st;
      ghost var within := WithinRequirements(cfg.classes, assignments, s0.scheduledCounts);
      var unscheduled := SetOf(cfg.classes);
      var progress := true;
      var iteration := 0;
      while unscheduled != {} && progress && iteration < 1000
        invariant Valid() && Extends(s0, st)
        invariant within ==> WithinRequirements(cfg.classes, assignments, st.scheduledCounts)
        invariant unscheduled <= SetOf(cfg.classes)
        decreases 1000 - iteration
      {
        iteration := iteration + 1;
        progress := false;
        SetListing(unscheduled);
        var order :| Distinct(order) && SetOf(order) == unscheduled;
        for k := 0 to |order|
          invariant Valid() && Extends(s0, st)
          invariant within ==> WithinRequirements(cfg.classes, assignments, st.scheduledCounts)
          invariant unscheduled <= SetOf(cfg.classes)
        {
          var cls := order[k];
          assert cls in SetOf(order);
          ghost var before := st;
          var stopped;
          progress, stopped := ClassTurn(cls, progress);
          ExtendsThen(s0, before, st);
          if !stopped {
            unscheduled := unscheduled - {cls};
          }
        }
      }
    }

    /** One class's turn in a round of generate_timetable: its subjects in
        subject order; the first one still short of its requirement and with a
        qualified teacher gets at most one booking, and the turn stops there
        once the round has booked anything (`stopped`). */
    method ClassTurn(cls: Name, progress: bool) returns (progress': bool, stopped: bool)
      requires Valid() && cls in cfg.classes
      modifies this
      ensures Valid() && Extends(old(st), st)
      ensures WithinRequirements(cfg.classes, assignments, old(st).scheduledCounts) ==>
                WithinRequirements(cfg.classes, assignments, st.scheduledCounts)
      ensures progress ==> progress'
      ensures !progress' ==> st == old(st)
      ensures st == old(st) || (stopped && Bookings(old(st).schedule) < Bookings(st.schedule))
    {
      ghost var s0 := st;
      ghost var within := WithinRequirements(cfg.classes, assignments, s0.scheduledCounts);
      progress' := progress;
      stopped := false;
      var ordered := subjectOrder[cls];
      for j := 0 to |ordered|
        invariant Valid() && Extends(s0, st)
        invariant within ==> WithinRequirements(cfg.classes, assignments, st.scheduledCounts)
        invariant progress ==> progress'
        invariant st == s0
      {
        var subject := ordered[j];
        if HasKey(assignments[cls], subject) {
          var required := Get(assignments[cls], subject);
          if st.scheduledCounts[(cls, subject)] < required {
            var qualified := QualifiedTeachers(cfg, st, subject);
            if qualified != [] {
              var placed := PlaceRequired(cls, subject, qualified);
              progress' := progress' || placed;
              if progress' {
                return progress', true;
              }
            }
          }
        }
      }
    }

    /** The teacher loop of generate_timetable for a subject the class still
        needs: the first qualified teacher whose free slot and room take the
        booking.  One more session of a required subject keeps the counts
        within the requirements. */
    method PlaceRequired(cls: Name, subject: Name, qualified: seq<Name>) returns (placed: bool)
      requires Valid() && cls in cfg.classes && HasKey(assignments[cls], subject)
      requires st.scheduledCounts[(cls, subject)] < Get(assignments[cls], subject)
      modifies this
      ensures Valid() && Extends(old(st), st)
      ensures WithinRequirements(cfg.classes, assignments, old(st).scheduledCounts) ==>
                WithinRequirements(cfg.classes, assignments, st.scheduledCounts)
      ensures !placed ==> st == old(st)
      ensures placed ==> Bookings(old(st).schedule) < Bookings(st.schedule)
    {
      ghost var s0 := st;
      var found := TryTeachers(cls, subject, qualified);
      placed := found.Some?;
      if placed {
        var (teacher, slot, room) := found.value;
        ExtendsStep(s0, s0, st, Booking(cls, slot, Entry(subject, teacher, room)));
        if WithinRequirements(cfg.classes, assignments, s0.scheduledCounts) {
          WithinAfterPlacing(cfg.classes, assignments, s0.scheduledCounts, cls, subject);
        }
      } else {
        ExtendsRefl(st);
      }
    }

    lemma ExtendsRefl(s: State)
      requires Settled()
      ensures Extends(s, s)
    {
    }

    lemma ExtendsThen(s0: State, s1: State, s2: State)
      requires Settled() && Extends(s0, s1) && Extends(s1, s2)
      ensures Extends(s0, s2)
    {
    }

    lemma ExtendsStep(s0: State, s: State, s': State, nb: Booking)
      requires Settled() && Extends(s0, s) && Added(s, s', nb)
      requires nb.cls in cfg.classes && HasKey(assignments[nb.cls], nb.entry.subject)
      ensures Extends(s0, s')
    {
    }
  }
}
