/** What the scheduler reports about a timetable: the final audit
    (verify_constraints) and the API response (generate_timetable_response).
    Both only read the state.  The audit runs five sections in a fixed order
    and returns the problems it found, or the single line that all constraints
    are satisfied. */
module Reporting {
  import opened Names
  import opened Collections
  import opened OrderedMaps
  import opened Catalog
  import opened ScheduleState

  /** One line of the audit, standing for the formatted message of the source. */
  datatype Message =
    | CountMismatch(cls: Name, subject: Name, scheduled: int, required: int)
    | Unqualified(teacher: Name, subject: Name)
    | CapacityExceeded(room: Name, cls: Name)
    | TeacherConflict(teacher: Name)
    | LabBeforeTheory(lab: Name, cls: Name)
    | AllSatisfied

  /** Every class of the list has a requirement map (`subject_assignments[cls]`). */
  predicate HasRequirements(classes: seq<Name>, a: map<Name, OMap<int>>) {
    forall c :: c in classes ==> c in a
  }

  // ---------------------------------------------------------------------------
  // Section 1: every requirement is met exactly.

  /** The mismatches of one class, in the order of its requirement map;
      `scheduled_counts[cls].get(subject, 0)` is the multiplicity of the pair. */
  function RequirementErrors(cls: Name, reqs: OMap<int>, sc: multiset<(Name, Name)>): (r: seq<Message>)
    ensures forall x :: x in r ==> x.CountMismatch? && x.cls == cls
  {
    if reqs == [] then []
    else
      var subject := reqs[0].0;
      var scheduled := sc[(cls, subject)];
      (if scheduled != reqs[0].1 then [CountMismatch(cls, subject, scheduled, reqs[0].1)] else []) +
      RequirementErrors(cls, reqs[1..], sc)
  }

  function CountErrors(classes: seq<Name>, a: map<Name, OMap<int>>, sc: multiset<(Name, Name)>): (r: seq<Message>)
    requires HasRequirements(classes, a)
    ensures forall x :: x in r ==> x.CountMismatch?
  {
    if classes == [] then []
    else RequirementErrors(classes[0], a[classes[0]], sc) + CountErrors(classes[1..], a, sc)
  }

  lemma {:induction false} RequirementEmpty(cls: Name, reqs: OMap<int>, sc: multiset<(Name, Name)>)
    ensures RequirementErrors(cls, reqs, sc) == [] <==>
            forall i :: 0 <= i < |reqs| ==> sc[(cls, reqs[i].0)] == reqs[i].1
  {
    if reqs != [] {
      RequirementEmpty(cls, reqs[1..], sc);
      assert forall i :: 0 < i < |reqs| ==> reqs[i] == reqs[1..][i - 1];
    }
  }

  /** The first section reports nothing exactly when every class holds every
      subject exactly as often as required. */
  lemma {:induction false} CountEmpty(classes: seq<Name>, a: map<Name, OMap<int>>, sc: multiset<(Name, Name)>)
    requires HasRequirements(classes, a)
    ensures CountErrors(classes, a, sc) == [] <==>
            forall c, i :: c in classes && 0 <= i < |a[c]| ==> sc[(c, a[c][i].0)] == a[c][i].1
  {
    if classes != [] {
      RequirementEmpty(classes[0], a[classes[0]], sc);
      CountEmpty(classes[1..], a, sc);
      assert forall c :: c in classes <==> c == classes[0] || c in classes[1..];
    }
  }

  // ---------------------------------------------------------------------------
  // Sections 2, 3 and 5: one test per booked cell, class by class, row by row.

  datatype Section = Qualification | Capacity | LabOrder

  /** `self.class_sizes[cls] > self.rooms[room]['capacity']`; the indexing
      cannot fail on a booked cell (see CleanAudit). */
  predicate Overfull(cfg: Config, cls: Name, room: Name) {
    cls in cfg.sizes && HasKey(cfg.rooms, room) && cfg.sizes[cls] > Get(cfg.rooms, room).capacity
  }

  /** A lab session whose base subject has a time list (possibly emptied by
      unscheduling) with no entry earlier than the lab's slot. */
  predicate LabTooEarly(cfg: Config, st: State, cls: Name, subject: Name, slot: Name) {
    EndsWithLab(subject) && (cls, StripLab(subject)) in st.classSubjectTime &&
    !TheoryBefore(cfg, st, cls, subject, slot)
  }

  /** The kind of message each section reports. */
  predicate OfSection(sec: Section, m: Message) {
    match sec
    case Qualification => m.Unqualified?
    case Capacity => m.CapacityExceeded?
    case LabOrder => m.LabBeforeTheory?
  }

  /** The message one section reports for the cell `slot -> e` of `cls`, if any. */
  function CellErrors(sec: Section, cfg: Config, st: State, cls: Name, slot: Name, e: Entry): seq<Message> {
    match sec
    case Qualification =>
      if !Qualified(cfg, e.teacher, e.subject) then [Unqualified(e.teacher, e.subject)] else []
    case Capacity =>
      if Overfull(cfg, cls, e.room) then [CapacityExceeded(e.room, cls)] else []
    case LabOrder =>
      if LabTooEarly(cfg, st, cls, e.subject, slot) then [LabBeforeTheory(e.subject, cls)] else []
  }

  lemma CellSection(sec: Section, cfg: Config, st: State, cls: Name, slot: Name, e: Entry)
    ensures forall m :: m in CellErrors(sec, cfg, st, cls, slot, e) ==> OfSection(sec, m)
  {
  }

  function RowErrors(sec: Section, cfg: Config, st: State, cls: Name, row: OMap<Entry>): (r: seq<Message>)
    ensures forall m :: m in r ==> OfSection(sec, m)
  {
    if row == [] then []
    else
      CellSection(sec, cfg, st, cls, row[0].0, row[0].1);
      CellErrors(sec, cfg, st, cls, row[0].0, row[0].1) + RowErrors(sec, cfg, st, cls, row[1..])
  }

  /** One section over all classes, in the order of `classes`. */
  function ScanErrors(sec: Section, cfg: Config, st: State, classes: seq<Name>): (r: seq<Message>)
    ensures forall m :: m in r ==> OfSection(sec, m)
  {
    if classes == [] then []
    else RowErrors(sec, cfg, st, classes[0], Row(st, classes[0])) + ScanErrors(sec, cfg, st, classes[1..])
  }

  lemma {:induction false} RowEmpty(sec: Section, cfg: Config, st: State, cls: Name, row: OMap<Entry>)
    ensures RowErrors(sec, cfg, st, cls, row) == [] <==>
            forall x :: x in row ==> CellErrors(sec, cfg, st, cls, x.0, x.1) == []
  {
    if row != [] {
      RowEmpty(sec, cfg, st, cls, row[1..]);
      assert forall x :: x in row <==> x == row[0] || x in row[1..];
    }
  }

  /** A section reports nothing exactly when no booked cell of a listed class
      fails its test. */
  lemma {:induction false} ScanEmpty(sec: Section, cfg: Config, st: State, classes: seq<Name>)
    ensures ScanErrors(sec, cfg, st, classes) == [] <==>
            forall c, x :: c in classes && x in Row(st, c) ==> CellErrors(sec, cfg, st, c, x.0, x.1) == []
  {
    if classes != [] {
      RowEmpty(sec, cfg, st, classes[0], Row(st, classes[0]));
      ScanEmpty(sec, cfg, st, classes[1..]);
      assert forall c :: c in classes <==> c == classes[0] || c in classes[1..];
    }
  }

  /** Every message a cell of a listed class draws is in its section. */
  lemma {:induction false} RowErrorsHas(sec: Section, cfg: Config, st: State, cls: Name,
                                        row: OMap<Entry>, x: (Name, Entry), m: Message)
    requires x in row && m in CellErrors(sec, cfg, st, cls, x.0, x.1)
    ensures m in RowErrors(sec, cfg, st, cls, row)
  {
    if x != row[0] {
      RowErrorsHas(sec, cfg, st, cls, row[1..], x, m);
    }
  }

  lemma {:induction false} ScanErrorsHas(sec: Section, cfg: Config, st: State, classes: seq<Name>,
                                         c: Name, x: (Name, Entry), m: Message)
    requires c in classes && x in Row(st, c) && m in CellErrors(sec, cfg, st, c, x.0, x.1)
    ensures m in ScanErrors(sec, cfg, st, classes)
  {
    if c == classes[0] {
      RowErrorsHas(sec, cfg, st, c, Row(st, c), x, m);
    } else {
      ScanErrorsHas(sec, cfg, st, classes[1..], c, x, m);
    }
  }

  /** The lab-after-theory rule is tested only when a session is booked.
      Releasing the one recorded session of a lab's theory subject, as
      resolve_conflicts_aggressive may do for any target, leaves the lab booked
      with an empty time list for its theory, and verify_constraints then
      reports the lab as scheduled before its theory. */
  lemma ReleasedTheoryExposesLab(cfg: Config, a: map<Name, OMap<int>>, st: State, cls: Name,
                                 theorySlot: Name, labSlot: Name, lab: Name)
    requires HasRequirements(cfg.classes, a) && cls in cfg.classes
    requires WellFormed(Row(st, cls)) && EndsWithLab(lab)
    requires HasKey(Row(st, cls), theorySlot) && Get(Row(st, cls), theorySlot).subject == StripLab(lab)
    requires HasKey(Row(st, cls), labSlot) && Get(Row(st, cls), labSlot).subject == lab
    requires (cls, StripLab(lab)) in st.classSubjectTime
    requires st.classSubjectTime[(cls, StripLab(lab))] == [theorySlot]
    ensures LabBeforeTheory(lab, cls) in VerifyConstraints(cfg, a, Uncommit(cfg, st, cls, theorySlot))
  {
    LabLeftAlone(cfg, st, cfg.classes, cls, theorySlot, labSlot, lab);
    LabOrderReported(cfg, a, Uncommit(cfg, st, cls, theorySlot), LabBeforeTheory(lab, cls));
  }

  /** A message of the lab-order section is among verify_constraints' errors. */
  lemma LabOrderReported(cfg: Config, a: map<Name, OMap<int>>, st: State, m: Message)
    requires HasRequirements(cfg.classes, a)
    requires m in ScanErrors(LabOrder, cfg, st, cfg.classes)
    ensures m in VerifyConstraints(cfg, a, st)
  {
    assert m in CellAndConflictErrors(cfg, st);
    assert m in Audit(cfg, a, st);
  }

  /** After that release the lab's cell is still in the row, and its theory's
      time list is present and empty, so nothing precedes the lab and the
      lab-order section reports it. */
  lemma LabLeftAlone(cfg: Config, st: State, classes: seq<Name>, cls: Name, theorySlot: Name,
                     labSlot: Name, lab: Name)
    requires cls in classes && WellFormed(Row(st, cls)) && EndsWithLab(lab)
    requires HasKey(Row(st, cls), theorySlot) && Get(Row(st, cls), theorySlot).subject == StripLab(lab)
    requires HasKey(Row(st, cls), labSlot) && Get(Row(st, cls), labSlot).subject == lab
    requires (cls, StripLab(lab)) in st.classSubjectTime
    requires st.classSubjectTime[(cls, StripLab(lab))] == [theorySlot]
    ensures LabBeforeTheory(lab, cls) in ScanErrors(LabOrder, cfg, Uncommit(cfg, st, cls, theorySlot), classes)
  {
    var row := Row(st, cls);
    var e := Get(row, labSlot);
    assert labSlot != theorySlot by {
      if labSlot == theorySlot {
        NotOwnBase(lab);
      }
    }
    RemoveEntries(row, theorySlot, (labSlot, e));
    var st' := Uncommit(cfg, st, cls, theorySlot);
    assert (labSlot, e) in Row(st', cls);
    assert st'.classSubjectTime[(cls, StripLab(lab))] == [];
    LabOrderFlags(cfg, st', classes, cls, labSlot, e);
  }

  /** A booked lab cell of a listed class with nothing of its theory before it
      is reported by the lab-order section. */
  lemma LabOrderFlags(cfg: Config, st: State, classes: seq<Name>, cls: Name, slot: Name, e: Entry)
    requires cls in classes && (slot, e) in Row(st, cls)
    requires LabTooEarly(cfg, st, cls, e.subject, slot)
    ensures LabBeforeTheory(e.subject, cls) in ScanErrors(LabOrder, cfg, st, classes)
  {
    ScanErrorsHas(LabOrder, cfg, st, classes, cls, (slot, e), LabBeforeTheory(e.subject, cls));
  }

  // ---------------------------------------------------------------------------
  // Section 4: the slots of every teacher, gathered into a dictionary in
  // insertion order, must not repeat.

  /** `teacher_schedule[teacher]`, empty for a teacher not yet seen. */
  function SlotsOf(m: OMap<seq<Name>>, t: Name): seq<Name> {
    if HasKey(m, t) then Get(m, t) else []
  }

  /** `teacher_schedule[entry['teacher']].append(time_slot)` */
  function AddCell(m: OMap<seq<Name>>, cell: (Name, Entry)): OMap<seq<Name>> {
    Put(m, cell.1.teacher, SlotsOf(m, cell.1.teacher) + [cell.0])
  }

  function AddRow(m: OMap<seq<Name>>, row: OMap<Entry>): OMap<seq<Name>>
    decreases |row|
  {
    if row == [] then m else AddCell(AddRow(m, row[..|row| - 1]), row[|row| - 1])
  }

  /** The dictionary `teacher_schedule` built over the rows of `classes`. */
  function TeacherTimes(st: State, classes: seq<Name>): OMap<seq<Name>>
    decreases |classes|
  {
    if classes == [] then []
    else AddRow(TeacherTimes(st, classes[..|classes| - 1]), Row(st, classes[|classes| - 1]))
  }

  /** `len(slots) != len(set(slots))` for each teacher, in dictionary order. */
  function ConflictErrors(m: OMap<seq<Name>>): (r: seq<Message>)
    ensures forall x :: x in r ==> x.TeacherConflict?
    ensures r == [] <==> forall i :: 0 <= i < |m| ==> |m[i].1| == |SetOf(m[i].1)|
    ensures forall t :: TeacherConflict(t) in r <==>
              exists i :: 0 <= i < |m| && m[i].0 == t && |m[i].1| != |SetOf(m[i].1)|
  {
    if m == [] then []
    else
      var rest := ConflictErrors(m[1..]);
      assert forall i :: 0 < i < |m| ==> m[i] == m[1..][i - 1];
      (if |m[0].1| != |SetOf(m[0].1)| then [TeacherConflict(m[0].0)] else []) + rest
  }

  /** The fourth section: the dictionary, then the check of its lists. */
  function Conflicts(st: State, classes: seq<Name>): (r: seq<Message>)
    ensures forall x :: x in r ==> x.TeacherConflict?
  {
    ConflictErrors(TeacherTimes(st, classes))
  }

  // ---------------------------------------------------------------------------
  // The audit.

  /** Sections 2 to 5, in order. */
  function CellAndConflictErrors(cfg: Config, st: State): (r: seq<Message>)
    ensures forall x :: x in r ==> !x.CountMismatch? && !x.AllSatisfied?
  {
    ScanErrors(Qualification, cfg, st, cfg.classes) +
    ScanErrors(Capacity, cfg, st, cfg.classes) +
    Conflicts(st, cfg.classes) +
    ScanErrors(LabOrder, cfg, st, cfg.classes)
  }

  /** The error list of verify_constraints: the count mismatches first, then
      the other four sections. */
  function Audit(cfg: Config, a: map<Name, OMap<int>>, st: State): (r: seq<Message>)
    requires HasRequirements(cfg.classes, a)
    ensures AllSatisfied !in r
    ensures CountErrors(cfg.classes, a, st.scheduledCounts) <= r
    ensures forall x :: x in r && x.CountMismatch? ==> x in CountErrors(cfg.classes, a, st.scheduledCounts)
  {
    CountErrors(cfg.classes, a, st.scheduledCounts) + CellAndConflictErrors(cfg, st)
  }

  /** verify_constraints: the errors, or the single all-clear line. */
  function VerifyConstraints(cfg: Config, a: map<Name, OMap<int>>, st: State): (r: seq<Message>)
    requires HasRequirements(cfg.classes, a)
    ensures r == [AllSatisfied] <==> Audit(cfg, a, st) == []
    ensures AllSatisfied in r <==> r == [AllSatisfied]
    ensures forall x :: x in Audit(cfg, a, st) <==> x in r && x != AllSatisfied
    ensures Audit(cfg, a, st) != [] ==> r == Audit(cfg, a, st)
  {
    var errors := Audit(cfg, a, st);
    if errors == [] then [AllSatisfied] else errors
  }

  // ---------------------------------------------------------------------------
  // On a valid state the audit finds no qualification, capacity or conflict
  // problem.

  /** The cells of `row`, as bookings of `cls`. */
  ghost function RowCells(cls: Name, row: OMap<Entry>): set<Booking> {
    set x | x in row :: Booking(cls, x.0, x.1)
  }

  /** The cells of all rows of `classes`. */
  ghost function ClassCells(st: State, classes: seq<Name>): set<Booking> {
    set c, x | c in classes && x in Row(st, c) :: Booking(c, x.0, x.1)
  }

  /** The slot lists gathered so far repeat no slot, and record only
      (teacher, slot) pairs of the cells `D` already visited. */
  ghost predicate GatherInv(m: OMap<seq<Name>>, D: set<Booking>) {
    WellFormed(m) &&
    (forall t :: Distinct(SlotsOf(m, t))) &&
    (forall t, x :: x in SlotsOf(m, t) ==> (t, x) in TeacherSlots(D))
  }

  lemma AddCellInv(m: OMap<seq<Name>>, D: set<Booking>, cls: Name, cell: (Name, Entry))
    requires GatherInv(m, D)
    requires (cell.1.teacher, cell.0) !in TeacherSlots(D)
    ensures GatherInv(AddCell(m, cell), D + {Booking(cls, cell.0, cell.1)})
  {
    var nb := Booking(cls, cell.0, cell.1);
    var t0 := cell.1.teacher;
    var m' := AddCell(m, cell);
    AddIndexes(D, nb);
    PutWellFormed(m, t0, SlotsOf(m, t0) + [cell.0]);
    PutGet(m, t0, SlotsOf(m, t0) + [cell.0]);
    assert SlotsOf(m', t0) == SlotsOf(m, t0) + [cell.0];
    assert cell.0 !in SlotsOf(m, t0);
    DistinctSnoc(SlotsOf(m, t0), cell.0);
    forall t | t != t0 ensures SlotsOf(m', t) == SlotsOf(m, t) {
      if HasKey(m, t) { PutOther(m, t0, SlotsOf(m, t0) + [cell.0], t); }
    }
  }

  /** The last cell of a row with distinct slots is not among the others. */
  lemma LastCellNew(cls: Name, row: OMap<Entry>)
    requires WellFormed(row) && row != []
    ensures Booking(cls, row[|row| - 1].0, row[|row| - 1].1) !in RowCells(cls, row[..|row| - 1])
  {
    var pre, last := row[..|row| - 1], row[|row| - 1];
    forall x | x in pre ensures x.0 != last.0 {
      var i :| 0 <= i < |pre| && pre[i] == x;
      assert Keys(row)[i] == x.0 && Keys(row)[|row| - 1] == last.0;
    }
  }

  /** A booking not yet visited adds a (teacher, slot) pair not yet seen. */
  lemma FreshTeacherSlot(D: set<Booking>, B: set<Booking>, nb: Booking)
    requires D <= B && nb in B && nb !in D && NoDoubleBooking(B)
    ensures (nb.entry.teacher, nb.slot) !in TeacherSlots(D)
  {
    forall b | b in D ensures (b.entry.teacher, b.slot) != (nb.entry.teacher, nb.slot) {
      assert b != nb;
    }
  }

  lemma {:induction false} AddRowInv(m: OMap<seq<Name>>, D: set<Booking>, B: set<Booking>,
                                     cls: Name, row: OMap<Entry>)
    requires GatherInv(m, D) && WellFormed(row) && NoDoubleBooking(B)
    requires D <= B && RowCells(cls, row) <= B
    requires forall x :: x in row ==> Booking(cls, x.0, x.1) !in D
    ensures GatherInv(AddRow(m, row), D + RowCells(cls, row))
    decreases |row|
  {
    if row != [] {
      var pre := row[..|row| - 1];
      RowCellsSnoc(cls, row);
      assert forall x :: x in pre ==> x in row;
      AddRowInv(m, D, B, cls, pre);
      AddLastCellInv(m, D, B, cls, row);
    } else {
      assert D + RowCells(cls, row) == D;
    }
  }

  /** The step of AddRowInv: adding the last cell of a row keeps the invariant. */
  lemma AddLastCellInv(m: OMap<seq<Name>>, D: set<Booking>, B: set<Booking>,
                       cls: Name, row: OMap<Entry>)
    requires WellFormed(row) && row != [] && NoDoubleBooking(B)
    requires D <= B && RowCells(cls, row) <= B
    requires forall x :: x in row ==> Booking(cls, x.0, x.1) !in D
    requires GatherInv(AddRow(m, row[..|row| - 1]), D + RowCells(cls, row[..|row| - 1]))
    requires RowCells(cls, row) == RowCells(cls, row[..|row| - 1]) + {Booking(cls, row[|row| - 1].0, row[|row| - 1].1)}
    ensures GatherInv(AddRow(m, row), D + RowCells(cls, row))
  {
    var pre, last := row[..|row| - 1], row[|row| - 1];
    LastCellFresh(D, B, cls, row);
    AddCellInv(AddRow(m, pre), D + RowCells(cls, pre), cls, last);
  }

  /** The last cell of a row, visited after the others, meets a (teacher, slot)
      pair not yet seen and completes the row's cells. */
  lemma LastCellFresh(D: set<Booking>, B: set<Booking>, cls: Name, row: OMap<Entry>)
    requires WellFormed(row) && row != [] && NoDoubleBooking(B)
    requires D <= B && RowCells(cls, row) <= B
    requires forall x :: x in row ==> Booking(cls, x.0, x.1) !in D
    requires RowCells(cls, row) == RowCells(cls, row[..|row| - 1]) + {Booking(cls, row[|row| - 1].0, row[|row| - 1].1)}
    ensures (row[|row| - 1].1.teacher, row[|row| - 1].0) !in TeacherSlots(D + RowCells(cls, row[..|row| - 1]))
    ensures D + RowCells(cls, row[..|row| - 1]) + {Booking(cls, row[|row| - 1].0, row[|row| - 1].1)}
            == D + RowCells(cls, row)
  {
    var pre, last := row[..|row| - 1], row[|row| - 1];
    var nb := Booking(cls, last.0, last.1);
    var D' := D + RowCells(cls, pre);
    LastCellNew(cls, row);
    assert nb in B && D' <= B;
    FreshTeacherSlot(D', B, nb);
  }

  /** A row's cells are those of all but its last entry, plus the last. */
  lemma RowCellsSnoc(cls: Name, row: OMap<Entry>)
    requires WellFormed(row) && row != []
    ensures WellFormed(row[..|row| - 1])
    ensures RowCells(cls, row) == RowCells(cls, row[..|row| - 1]) + {Booking(cls, row[|row| - 1].0, row[|row| - 1].1)}
  {
    var pre, last := row[..|row| - 1], row[|row| - 1];
    assert row == pre + [last];
    assert Keys(pre) == Keys(row)[..|row| - 1];
  }

  /** The cells of a list of classes with one more class appended. */
  lemma ClassCellsSnoc(st: State, pre: seq<Name>, c: Name)
    ensures ClassCells(st, pre + [c]) == ClassCells(st, pre) + RowCells(c, Row(st, c))
  {
  }

  /** Every cell of the listed classes is a booking of the timetable. */
  lemma ClassCellsBooked(st: State, classes: seq<Name>)
    requires RowsWellFormed(st.schedule)
    ensures ClassCells(st, classes) <= Bookings(st.schedule)
  {
    forall b | b in ClassCells(st, classes) ensures b in Bookings(st.schedule) {
      var c', x :| c' in classes && x in Row(st, c') && b == Booking(c', x.0, x.1);
      RowOfBookings(st, c');
      assert b in RowCells(c', Row(st, c'));
    }
  }

  lemma RowOfBookings(st: State, c: Name)
    requires RowsWellFormed(st.schedule)
    ensures WellFormed(Row(st, c))
    ensures RowCells(c, Row(st, c)) <= Bookings(st.schedule)
  {
    if c !in st.schedule {
      assert Keys<Entry>([]) == [];
    }
  }

  lemma {:induction false} TeacherTimesInv(st: State, classes: seq<Name>)
    requires RowsWellFormed(st.schedule) && NoDoubleBooking(Bookings(st.schedule))
    requires Distinct(classes)
    ensures GatherInv(TeacherTimes(st, classes), ClassCells(st, classes))
    decreases |classes|
  {
    if classes == [] {
      assert Keys<seq<Name>>([]) == [];
      assert ClassCells(st, classes) == {};
    } else {
      var pre, c := classes[..|classes| - 1], classes[|classes| - 1];
      assert classes == pre + [c];
      DistinctConcat(pre, [c]);
      TeacherTimesInv(st, pre);
      RowOfBookings(st, c);
      var D := ClassCells(st, pre);
      ClassCellsBooked(st, pre);
      AddRowInv(TeacherTimes(st, pre), D, Bookings(st.schedule), c, Row(st, c));
      ClassCellsSnoc(st, pre, c);
    }
  }

  /** No teacher is reported twice busy when the classes are listed once. */
  lemma NoConflictReported(st: State, classes: seq<Name>)
    requires RowsWellFormed(st.schedule) && NoDoubleBooking(Bookings(st.schedule))
    requires Distinct(classes)
    ensures ConflictErrors(TeacherTimes(st, classes)) == []
  {
    var m := TeacherTimes(st, classes);
    TeacherTimesInv(st, classes);
    forall i | 0 <= i < |m| ensures |m[i].1| == |SetOf(m[i].1)| {
      GetAt(m, i);
      assert SlotsOf(m, m[i].0) == m[i].1;
      DistinctCard(m[i].1);
    }
  }

  /** Every booked cell of a valid state passes the qualification and the
      capacity test. */
  lemma CleanCells(cfg: Config, st: State, classes: seq<Name>, sec: Section)
    requires ValidState(cfg, st)
    requires sec == Qualification || sec == Capacity
    ensures ScanErrors(sec, cfg, st, classes) == []
  {
    forall c, x | c in classes && x in Row(st, c) ensures CellErrors(sec, cfg, st, c, x.0, x.1) == [] {
      RowOfBookings(st, c);
      assert Booking(c, x.0, x.1) in RowCells(c, Row(st, c));
    }
    ScanEmpty(sec, cfg, st, classes);
  }

  /** The audit of a valid state whose class list repeats no class reports at
      most unmet requirements and lab sessions ahead of their theory. */
  lemma CleanAudit(cfg: Config, a: map<Name, OMap<int>>, st: State)
    requires HasRequirements(cfg.classes, a)
    requires ValidState(cfg, st) && Distinct(cfg.classes)
    ensures Audit(cfg, a, st) == CountErrors(cfg.classes, a, st.scheduledCounts) +
                                 ScanErrors(LabOrder, cfg, st, cfg.classes)
    ensures forall x :: x in VerifyConstraints(cfg, a, st) ==>
              x.CountMismatch? || x.LabBeforeTheory? || x.AllSatisfied?
  {
    CleanCells(cfg, st, cfg.classes, Qualification);
    CleanCells(cfg, st, cfg.classes, Capacity);
    NoConflictReported(st, cfg.classes);
    var labs := ScanErrors(LabOrder, cfg, st, cfg.classes);
    assert CellAndConflictErrors(cfg, st) == [] + [] + [] + labs;
    assert [] + [] + [] + labs == labs;
  }

  lemma AddRowSingle(m: OMap<seq<Name>>, cell: (Name, Entry))
    ensures AddRow(m, [cell]) == AddCell(m, cell)
  {
    assert [cell][..0] == [];
  }

  lemma AddCellFirst(cell: (Name, Entry))
    ensures AddCell([], cell) == [(cell.1.teacher, [cell.0])]
  {
    assert !HasKey<seq<Name>>([], cell.1.teacher);
    assert SlotsOf([], cell.1.teacher) + [cell.0] == [cell.0];
  }

  lemma AddCellAgain(xs: seq<Name>, cell: (Name, Entry))
    ensures AddCell([(cell.1.teacher, xs)], cell) == [(cell.1.teacher, xs + [cell.0])]
  {
    var m := [(cell.1.teacher, xs)];
    assert Keys(m) == [cell.1.teacher];
    assert HasKey(m, cell.1.teacher) && Get(m, cell.1.teacher) == xs;
  }

  /** The audit assumes the class list names each class once: a class listed
      twice has its row gathered twice, so a class with a single booking reads
      as a clash of its teacher. */
  lemma RepeatedClassReadsAsConflict(st: State, c: Name, slot: Name, e: Entry)
    requires Row(st, c) == [(slot, e)]
    ensures ConflictErrors(TeacherTimes(st, [c, c])) == [TeacherConflict(e.teacher)]
  {
    var cell := (slot, e);
    assert [c, c][..1] == [c] && [c][..0] == [];
    AddRowSingle([], cell);
    AddCellFirst(cell);
    assert TeacherTimes(st, [c]) == [(e.teacher, [slot])];
    AddRowSingle([(e.teacher, [slot])], cell);
    AddCellAgain([slot], cell);
    var two := [slot] + [slot];
    assert TeacherTimes(st, [c, c]) == [(e.teacher, two)];
    assert SetOf(two) == {slot};
    var m := [(e.teacher, two)];
    assert m[1..] == [];
    assert ConflictErrors(m) == [TeacherConflict(e.teacher)] + ConflictErrors([]);
  }

  // ---------------------------------------------------------------------------
  // generate_timetable_response

  /** `response["schedule"]`: for each listed class and slot, the booked entry or
      `None`. */
  function Grid(st: State, classes: seq<Name>, slots: seq<Name>): map<Name, map<Name, Option<Entry>>> {
    map c | c in SetOf(classes) ::
      map s | s in SetOf(slots) ::
        if HasKey(Row(st, c), s) then Some(Get(Row(st, c), s)) else None
  }

  /** A cell of the grid shows an entry exactly when that booking is in the
      timetable. */
  lemma GridMeaning(st: State, classes: seq<Name>, slots: seq<Name>, c: Name, s: Name, e: Entry)
    requires RowsWellFormed(st.schedule)
    requires c in classes && s in slots
    ensures c in Grid(st, classes, slots) && s in Grid(st, classes, slots)[c]
    ensures Grid(st, classes, slots)[c][s] == Some(e) <==> Booking(c, s, e) in Bookings(st.schedule)
  {
    var g := Grid(st, classes, slots);
    assert c in SetOf(classes) && s in SetOf(slots);
    RowOfBookings(st, c);
    if Booking(c, s, e) in Bookings(st.schedule) {
      assert (s, e) in st.schedule[c];
      EntryGet(st.schedule[c], (s, e));
    }
    if g[c][s] == Some(e) {
      var i :| 0 <= i < |Row(st, c)| && Row(st, c)[i] == (s, e);
      assert Booking(c, s, e) in RowCells(c, Row(st, c));
    }
  }

  /** `total_scheduled` for one class: the counts of its required subjects. */
  function RowScheduled(cls: Name, reqs: OMap<int>, sc: multiset<(Name, Name)>): int {
    if reqs == [] then 0 else sc[(cls, reqs[0].0)] + RowScheduled(cls, reqs[1..], sc)
  }

  function TotalScheduled(classes: seq<Name>, a: map<Name, OMap<int>>, sc: multiset<(Name, Name)>): int
    requires HasRequirements(classes, a)
  {
    if classes == [] then 0 else RowScheduled(classes[0], a[classes[0]], sc) + TotalScheduled(classes[1..], a, sc)
  }

  /** No count exceeds its requirement: what generate_timetable keeps. */
  predicate WithinRequirements(classes: seq<Name>, a: map<Name, OMap<int>>, sc: multiset<(Name, Name)>)
    requires HasRequirements(classes, a)
  {
    forall c, i :: c in classes && 0 <= i < |a[c]| ==> sc[(c, a[c][i].0)] <= a[c][i].1
  }

  lemma {:induction false} RowTotals(cls: Name, reqs: OMap<int>, sc: multiset<(Name, Name)>)
    requires forall i :: 0 <= i < |reqs| ==> sc[(cls, reqs[i].0)] <= reqs[i].1
    ensures RowScheduled(cls, reqs, sc) <= SumValues(reqs)
    ensures RowScheduled(cls, reqs, sc) == SumValues(reqs) <==> RequirementErrors(cls, reqs, sc) == []
  {
    if reqs != [] {
      assert forall i :: 0 < i < |reqs| ==> reqs[i] == reqs[1..][i - 1];
      RowTotals(cls, reqs[1..], sc);
    }
  }

  /** When no requirement is exceeded, the scheduled total is at most the
      required total, and the two are equal exactly when the audit finds no
      count mismatch. */
  lemma {:induction false} TotalsMeaning(classes: seq<Name>, a: map<Name, OMap<int>>, sc: multiset<(Name, Name)>)
    requires HasRequirements(classes, a) && WithinRequirements(classes, a, sc)
    ensures TotalScheduled(classes, a, sc) <= TotalRequired(classes, a)
    ensures TotalScheduled(classes, a, sc) == TotalRequired(classes, a) <==> CountErrors(classes, a, sc) == []
  {
    if classes != [] {
      assert forall c :: c in classes[1..] ==> c in classes;
      RowTotals(classes[0], a[classes[0]], sc);
      TotalsMeaning(classes[1..], a, sc);
    }
  }

  /** The distinct days of `slots`, in order of first appearance. */
  function Days(slots: seq<Name>): (ds: seq<Name>)
    ensures Distinct(ds)
    ensures forall s :: s in slots ==> DayOf(s) in ds
    decreases |slots|
  {
    if slots == [] then []
    else
      var pre := slots[..|slots| - 1];
      var ds := Days(pre);
      var d := DayOf(slots[|slots| - 1]);
      assert forall s :: s in slots ==> s in pre || s == slots[|slots| - 1];
      if d in ds then ds
      else
        DistinctSnoc(ds, d);
        ds + [d]
  }

  /** `sum(teacher_daily_load[teacher].values())`, added up over the days of
      `time_slots`, the only days a booking can fall on. */
  function LoadTotal(tdl: multiset<(Name, Name)>, t: Name, ds: seq<Name>): int {
    if ds == [] then 0 else tdl[(t, ds[0])] + LoadTotal(tdl, t, ds[1..])
  }

  /** The sessions a teacher gives. */
  ghost function TeacherSessions(B: set<Booking>, t: Name): set<Booking> {
    set b | b in B && b.entry.teacher == t
  }

  ghost function SessionsOnDays(B: set<Booking>, t: Name, ds: seq<Name>): set<Booking> {
    set b | b in B && b.entry.teacher == t && DayOf(b.slot) in ds
  }

  lemma {:induction false} LoadTotalCounts(tdl: multiset<(Name, Name)>, B: set<Booking>, t: Name, ds: seq<Name>)
    requires LoadsMatch(tdl, B) && Distinct(ds)
    ensures LoadTotal(tdl, t, ds) == |SessionsOnDays(B, t, ds)|
  {
    if ds != [] {
      DistinctTail(ds);
      LoadTotalCounts(tdl, B, t, ds[1..]);
      var here, later := DaySessions(B, t, ds[0]), SessionsOnDays(B, t, ds[1..]);
      assert SessionsOnDays(B, t, ds) == here + later by {
        assert forall d :: d in ds <==> d == ds[0] || d in ds[1..];
      }
      assert here * later == {};
    }
  }

  /** `teacher_utilization`: one total per teacher, in the order of `teachers`. */
  function Utilization(cfg: Config, st: State): (u: seq<(Name, int)>)
    ensures |u| == |cfg.teachers|
    ensures forall i :: 0 <= i < |u| ==> u[i].0 == cfg.teachers[i]
  {
    seq(|cfg.teachers|, i requires 0 <= i < |cfg.teachers| =>
      (cfg.teachers[i], LoadTotal(st.teacherDailyLoad, cfg.teachers[i], Days(cfg.timeSlots))))
  }

  /** In a valid state each teacher's total is the number of sessions they give. */
  lemma UtilizationMeaning(cfg: Config, st: State, i: int)
    requires ValidState(cfg, st) && 0 <= i < |cfg.teachers|
    ensures Utilization(cfg, st)[i].1 == |TeacherSessions(Bookings(st.schedule), cfg.teachers[i])|
  {
    var B := Bookings(st.schedule);
    var t := cfg.teachers[i];
    var ds := Days(cfg.timeSlots);
    LoadTotalCounts(st.teacherDailyLoad, B, t, ds);
    assert SessionsOnDays(B, t, ds) == TeacherSessions(B, t) by {
      forall b | b in TeacherSessions(B, t) ensures DayOf(b.slot) in ds {
        assert BookingSound(cfg, b);
      }
    }
  }

  /** The response without its success rate. */
  datatype Response = Response(
    grid: map<Name, map<Name, Option<Entry>>>,
    totalRequired: int,
    totalScheduled: int,
    utilization: seq<(Name, int)>,
    constraints: seq<Message>)

  /** generate_timetable_response.  The grid shows exactly the bookings of the
      listed classes at the listed slots; with no count above its requirement
      the scheduled total is at most the required one, and equal exactly when
      the audit reports no count mismatch; on a valid state each teacher's
      utilization is the number of sessions the teacher gives. */
  function TimetableResponse(cfg: Config, a: map<Name, OMap<int>>, st: State): (r: Response)
    requires HasRequirements(cfg.classes, a)
    ensures r.constraints == VerifyConstraints(cfg, a, st)
    ensures r.totalRequired == TotalRequired(cfg.classes, a)
    ensures RowsWellFormed(st.schedule) ==>
              forall c, s, e :: c in cfg.classes && s in cfg.timeSlots ==>
                c in r.grid && s in r.grid[c] &&
                (r.grid[c][s] == Some(e) <==> Booking(c, s, e) in Bookings(st.schedule))
    ensures WithinRequirements(cfg.classes, a, st.scheduledCounts) ==>
              r.totalScheduled <= r.totalRequired &&
              (r.totalScheduled == r.totalRequired <==> forall x :: x in r.constraints ==> !x.CountMismatch?)
    ensures |r.utilization| == |cfg.teachers|
    ensures forall i :: 0 <= i < |cfg.teachers| ==>
              r.utilization[i].0 == cfg.teachers[i] &&
              (ValidState(cfg, st) ==>
                 r.utilization[i].1 == |TeacherSessions(Bookings(st.schedule), cfg.teachers[i])|)
  {
    GridAll(st, cfg.classes, cfg.timeSlots);
    ResponseTotals(cfg, a, st);
    UtilizationAll(cfg, st);
    Response(Grid(st, cfg.classes, cfg.timeSlots),
             TotalRequired(cfg.classes, a),
             TotalScheduled(cfg.classes, a, st.scheduledCounts),
             Utilization(cfg, st),
             VerifyConstraints(cfg, a, st))
  }

  /** GridMeaning for every cell at once. */
  lemma GridAll(st: State, classes: seq<Name>, slots: seq<Name>)
    ensures RowsWellFormed(st.schedule) ==>
              forall c, s, e :: c in classes && s in slots ==>
                c in Grid(st, classes, slots) && s in Grid(st, classes, slots)[c] &&
                (Grid(st, classes, slots)[c][s] == Some(e) <==> Booking(c, s, e) in Bookings(st.schedule))
  {
    if RowsWellFormed(st.schedule) {
      var g := Grid(st, classes, slots);
      forall c, s, e | c in classes && s in slots
        ensures c in g && s in g[c] && (g[c][s] == Some(e) <==> Booking(c, s, e) in Bookings(st.schedule))
      {
        GridMeaning(st, classes, slots, c, s, e);
      }
    }
  }

  /** UtilizationMeaning for every teacher at once. */
  lemma UtilizationAll(cfg: Config, st: State)
    ensures ValidState(cfg, st) ==>
              forall i :: 0 <= i < |cfg.teachers| ==>
                Utilization(cfg, st)[i].1 == |TeacherSessions(Bookings(st.schedule), cfg.teachers[i])|
  {
    if ValidState(cfg, st) {
      forall i | 0 <= i < |cfg.teachers|
        ensures Utilization(cfg, st)[i].1 == |TeacherSessions(Bookings(st.schedule), cfg.teachers[i])|
      {
        UtilizationMeaning(cfg, st, i);
      }
    }
  }

  /** With no count above its requirement, the response's totals compare as the
      audit says: everything is scheduled exactly when no count mismatch is
      reported. */
  lemma ResponseTotals(cfg: Config, a: map<Name, OMap<int>>, st: State)
    requires HasRequirements(cfg.classes, a)
    ensures WithinRequirements(cfg.classes, a, st.scheduledCounts) ==>
              TotalScheduled(cfg.classes, a, st.scheduledCounts) <= TotalRequired(cfg.classes, a) &&
              (TotalScheduled(cfg.classes, a, st.scheduledCounts) == TotalRequired(cfg.classes, a) <==>
                 forall x :: x in VerifyConstraints(cfg, a, st) ==> !x.CountMismatch?)
  {
    if WithinRequirements(cfg.classes, a, st.scheduledCounts) {
      TotalsMeaning(cfg.classes, a, st.scheduledCounts);
      var errs := CountErrors(cfg.classes, a, st.scheduledCounts);
      var all := Audit(cfg, a, st);
      if errs != [] {
        assert all[0] == errs[0] && errs[0].CountMismatch?;
        assert all[0] in VerifyConstraints(cfg, a, st);
      }
    }
  }
}
