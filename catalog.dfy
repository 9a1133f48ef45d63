/** The scheduler's fixed inputs and what its constructor does with them before
    any scheduling: the three validators, each stopping at the first problem it
    meets, and the expansion of credits into required sessions per class. */
module Catalog {
  import opened Names
  import opened Collections
  import opened OrderedMaps

  /** `rooms[room]`: `{'capacity': ..., 'type': ...}` */
  datatype RoomInfo = RoomInfo(capacity: int, kind: string)

  /** The constructor's arguments.  Dictionaries whose iteration order the
      scheduler observes are ordered maps; the others are plain maps. */
  datatype Config = Config(
    teachers: seq<Name>,
    classes: seq<Name>,
    subjects: seq<Name>,
    rooms: OMap<RoomInfo>,
    timeSlots: seq<Name>,
    credits: OMap<int>,
    quals: map<Name, seq<Name>>,
    roomReqs: map<Name, string>,
    prereqs: map<Name, seq<Name>>,
    sizes: map<Name, int>,
    maxDailyLoad: int,
    consecutivePreferred: bool,
    maxAttempts: int)

  /** Python dictionaries never repeat a key. */
  predicate DictsWellFormed(cfg: Config) {
    WellFormed(cfg.rooms) && WellFormed(cfg.credits)
  }

  /** The `ValueError`s raised during construction. */
  datatype Error =
    | NoTeachers
    | NoClasses
    | NoSubjects
    | NoRooms
    | NoTimeSlots
    | ClassSizeMissing(cls: Name)
    | InvalidClassSize(cls: Name)
    | NoQualifiedTeachers(subject: Name)
    | InsufficientCapacity(required: int, available: int)

  datatype Outcome = Pass | Fail(error: Error)

  /** `subject in teacher_qualifications.get(teacher, [])` */
  predicate Qualified(cfg: Config, teacher: Name, subject: Name) {
    teacher in cfg.quals && subject in cfg.quals[teacher]
  }

  /** `subject_credits.get(subject, 0)` */
  function CreditOf(cfg: Config, subject: Name): int {
    if HasKey(cfg.credits, subject) then Get(cfg.credits, subject) else 0
  }

  /** `subject_room_requirements.get(subject, 'theory')` */
  function RequiredType(cfg: Config, subject: Name): string {
    if subject in cfg.roomReqs then cfg.roomReqs[subject] else "theory"
  }

  /** A class that the size check accepts. */
  predicate SizedClass(cfg: Config, cls: Name) {
    cls in cfg.sizes && cfg.sizes[cls] > 0
  }

  /** The error the size check raises for `cls`, which it does not accept. */
  function SizeError(cfg: Config, cls: Name): Error
    requires !SizedClass(cfg, cls)
  {
    if cls !in cfg.sizes then ClassSizeMissing(cls) else InvalidClassSize(cls)
  }

  /** The loop over the classes at the end of validate_inputs: the first class,
      in list order, whose size is missing or not positive, decides the error. */
  function CheckClassSizes(cfg: Config, classes: seq<Name>): (o: Outcome)
    ensures o.Pass? <==> forall i :: 0 <= i < |classes| ==> SizedClass(cfg, classes[i])
    ensures o.Fail? ==> exists i :: 0 <= i < |classes| && !SizedClass(cfg, classes[i]) &&
                          o.error == SizeError(cfg, classes[i]) &&
                          forall j :: 0 <= j < i ==> SizedClass(cfg, classes[j])
  {
    if |classes| == 0 then Pass
    else if !SizedClass(cfg, classes[0]) then Fail(SizeError(cfg, classes[0]))
    else
      var o := CheckClassSizes(cfg, classes[1..]);
      if o.Fail? then
        ghost var i :| 0 <= i < |classes| - 1 && !SizedClass(cfg, classes[1..][i]) &&
                       o.error == SizeError(cfg, classes[1..][i]) &&
                       forall j :: 0 <= j < i ==> SizedClass(cfg, classes[1..][j]);
        assert !SizedClass(cfg, classes[i + 1]);
        assert forall j :: 0 <= j < i + 1 ==> SizedClass(cfg, classes[j]) by {
          forall j | 0 <= j < i + 1 ensures SizedClass(cfg, classes[j]) {
            if j > 0 { assert classes[j] == classes[1..][j - 1]; }
          }
        }
        o
      else
        assert forall i :: 0 <= i < |classes| ==> SizedClass(cfg, classes[i]) by {
          forall i | 0 <= i < |classes| ensures SizedClass(cfg, classes[i]) {
            if i > 0 { assert classes[i] == classes[1..][i - 1]; }
          }
        }
        o
  }

  /** What validate_inputs accepts. */
  predicate InputsValid(cfg: Config) {
    |cfg.teachers| > 0 && |cfg.classes| > 0 && |cfg.subjects| > 0 && |cfg.rooms| > 0 &&
    |cfg.timeSlots| > 0 && forall i :: 0 <= i < |cfg.classes| ==> SizedClass(cfg, cfg.classes[i])
  }

  /** validate_inputs: the five emptiness tests in their order, then the sizes. */
  function ValidateInputs(cfg: Config): (o: Outcome)
    ensures o.Pass? <==> InputsValid(cfg)
    ensures |cfg.teachers| == 0 ==> o == Fail(NoTeachers)
    ensures |cfg.teachers| > 0 && |cfg.classes| == 0 ==> o == Fail(NoClasses)
    ensures |cfg.teachers| > 0 && |cfg.classes| > 0 && |cfg.subjects| == 0 ==> o == Fail(NoSubjects)
    ensures |cfg.teachers| > 0 && |cfg.classes| > 0 && |cfg.subjects| > 0 && |cfg.rooms| == 0 ==>
              o == Fail(NoRooms)
    ensures (|cfg.teachers| > 0 && |cfg.classes| > 0 && |cfg.subjects| > 0 && |cfg.rooms| > 0 &&
             |cfg.timeSlots| == 0) ==> o == Fail(NoTimeSlots)
    ensures o.Fail? && (o.error.ClassSizeMissing? || o.error.InvalidClassSize?) ==>
              o.error.cls in cfg.classes && !SizedClass(cfg, o.error.cls)
  {
    if |cfg.teachers| == 0 then Fail(NoTeachers)
    else if |cfg.classes| == 0 then Fail(NoClasses)
    else if |cfg.subjects| == 0 then Fail(NoSubjects)
    else if |cfg.rooms| == 0 then Fail(NoRooms)
    else if |cfg.timeSlots| == 0 then Fail(NoTimeSlots)
    else CheckClassSizes(cfg, cfg.classes)
  }

  /** The derived lab subjects check_teacher_coverage adds, in list order: one
      per listed subject whose credits are at least 3. */
  function LabSubjects(cfg: Config, subjects: seq<Name>): (labs: seq<Name>)
    ensures forall x :: x in labs <==> exists s :: s in subjects && CreditOf(cfg, s) >= 3 && x == LabOf(s)
  {
    if |subjects| == 0 then []
    else
      var rest := LabSubjects(cfg, subjects[1..]);
      var s := subjects[0];
      assert forall x :: x in subjects <==> x == s || x in subjects[1..];
      if CreditOf(cfg, s) >= 3 then [LabOf(s)] + rest else rest
  }

  /** `all_subjects`: the listed subjects together with their derived labs. */
  function CoverageSubjects(cfg: Config): seq<Name> {
    cfg.subjects + LabSubjects(cfg, cfg.subjects)
  }

  /** Some teacher in the list is qualified for `subject`. */
  predicate Covered(cfg: Config, subject: Name) {
    exists i :: 0 <= i < |cfg.teachers| && Qualified(cfg, cfg.teachers[i], subject)
  }

  function FirstUncovered(cfg: Config, xs: seq<Name>): (o: Outcome)
    ensures o.Pass? <==> forall i :: 0 <= i < |xs| ==> Covered(cfg, xs[i])
    ensures o.Fail? ==> o.error.NoQualifiedTeachers? && o.error.subject in xs &&
                        !Covered(cfg, o.error.subject)
  {
    if |xs| == 0 then Pass
    else if !Covered(cfg, xs[0]) then Fail(NoQualifiedTeachers(xs[0]))
    else
      var o := FirstUncovered(cfg, xs[1..]);
      assert forall i :: 1 <= i < |xs| ==> xs[i] == xs[1..][i - 1];
      o
  }

  /** check_teacher_coverage.  The source walks a Python set, whose order is
      unspecified, so the only promise is that the subject named in the error
      lacks a qualified teacher. */
  function CheckTeacherCoverage(cfg: Config): (o: Outcome)
    ensures o.Pass? <==> forall s :: s in CoverageSubjects(cfg) ==> Covered(cfg, s)
    ensures o.Fail? ==> o.error.NoQualifiedTeachers? && o.error.subject in CoverageSubjects(cfg) &&
                        !Covered(cfg, o.error.subject)
  {
    FirstUncovered(cfg, CoverageSubjects(cfg))
  }

  /** One step of setup_subject_assignments: the entry `(subject, credits)` of
      `subject_credits` applied to the class's requirements. */
  function ExpandStep(acc: OMap<int>, entry: (Name, int)): OMap<int> {
    var (s, c) := entry;
    if c > 0 then
      var a := Put(acc, s, c);
      if c >= 3 then Put(a, LabOf(s), 1) else a
    else acc
  }

  /** The requirements every class gets: `subject_credits` walked in order. */
  function Expand(credits: OMap<int>): OMap<int>
  {
    if |credits| == 0 then []
    else ExpandStep(Expand(credits[..|credits| - 1]), credits[|credits| - 1])
  }

  /** Subjects of a requirement map that are credited, or derived labs. */
  predicate ExpandedKey(credits: OMap<int>, x: Name) {
    exists i :: 0 <= i < |credits| && credits[i].1 > 0 &&
      (x == credits[i].0 || (credits[i].1 >= 3 && x == LabOf(credits[i].0)))
  }

  /** Every requirement asks for at least one session. */
  predicate PositiveValues(m: OMap<int>) {
    forall i :: 0 <= i < |m| ==> m[i].1 > 0
  }

  lemma PutPositive(m: OMap<int>, k: Name, v: int)
    requires PositiveValues(m) && v > 0
    ensures PositiveValues(Put(m, k, v))
  {
    if |m| > 0 && m[0].0 != k {
      PutPositive(m[1..], k, v);
      assert Put(m, k, v) == [m[0]] + Put(m[1..], k, v);
    }
  }

  /** setup_subject_assignments produces a dictionary whose keys are exactly the
      credited subjects with positive credits and the labs of those with at
      least 3, and every stored session count is positive. */
  lemma {:induction false} ExpandShape(credits: OMap<int>)
    ensures WellFormed(Expand(credits))
    ensures PositiveValues(Expand(credits))
    ensures forall x :: HasKey(Expand(credits), x) <==> ExpandedKey(credits, x)
  {
    if |credits| > 0 {
      var pre := credits[..|credits| - 1];
      ExpandShape(pre);
      ExpandedKeySnoc(credits);
      ExpandStepShape(Expand(pre), credits[|credits| - 1]);
    }
  }

  /** The subjects named by all entries are those named by all but the last,
      plus those the last one names. */
  lemma ExpandedKeySnoc(credits: OMap<int>)
    requires |credits| > 0
    ensures var pre := credits[..|credits| - 1];
            var (s, c) := credits[|credits| - 1];
            forall x :: ExpandedKey(credits, x) <==>
              ExpandedKey(pre, x) || (c > 0 && (x == s || (c >= 3 && x == LabOf(s))))
  {
    var pre := credits[..|credits| - 1];
    var (s, c) := credits[|credits| - 1];
    forall x ensures ExpandedKey(credits, x) <==>
        ExpandedKey(pre, x) || (c > 0 && (x == s || (c >= 3 && x == LabOf(s)))) {
      if ExpandedKey(pre, x) {
        var i :| 0 <= i < |pre| && pre[i].1 > 0 &&
                 (x == pre[i].0 || (pre[i].1 >= 3 && x == LabOf(pre[i].0)));
        assert credits[i] == pre[i];
      }
      if ExpandedKey(credits, x) {
        var i :| 0 <= i < |credits| && credits[i].1 > 0 &&
                 (x == credits[i].0 || (credits[i].1 >= 3 && x == LabOf(credits[i].0)));
        if i < |pre| { assert credits[i] == pre[i]; }
      }
    }
  }

  /** One step keeps the map well formed with positive counts, and adds the
      keys the entry names. */
  lemma ExpandStepShape(acc: OMap<int>, entry: (Name, int))
    requires WellFormed(acc) && PositiveValues(acc)
    ensures WellFormed(ExpandStep(acc, entry)) && PositiveValues(ExpandStep(acc, entry))
    ensures var (s, c) := entry;
            forall x :: HasKey(ExpandStep(acc, entry), x) <==>
              HasKey(acc, x) || (c > 0 && (x == s || (c >= 3 && x == LabOf(s))))
  {
    var (s, c) := entry;
    if c > 0 {
      PutWellFormed(acc, s, c);
      PutPositive(acc, s, c);
      if c >= 3 {
        PutWellFormed(Put(acc, s, c), LabOf(s), 1);
        PutPositive(Put(acc, s, c), LabOf(s), 1);
      }
    }
  }

  /** No credited subject is named like the derived lab of another. */
  predicate NoLabCollision(credits: OMap<int>) {
    forall i, j :: 0 <= i < |credits| && 0 <= j < |credits| ==> credits[j].0 != LabOf(credits[i].0)
  }

  /** A step for another subject leaves the requirement of `x` as it was. */
  lemma ExpandStepOther(acc: OMap<int>, entry: (Name, int), x: Name)
    requires HasKey(acc, x) && x != entry.0 && x != LabOf(entry.0)
    ensures HasKey(ExpandStep(acc, entry), x) && Get(ExpandStep(acc, entry), x) == Get(acc, x)
  {
    var (s, c) := entry;
    if c > 0 {
      PutOther(acc, s, c, x);
      if c >= 3 { PutOther(Put(acc, s, c), LabOf(s), 1, x); }
    }
  }

  /** A step for a subject with credits > 0 stores those credits for it. */
  lemma ExpandStepOwn(acc: OMap<int>, entry: (Name, int))
    requires entry.1 > 0
    ensures HasKey(ExpandStep(acc, entry), entry.0) && Get(ExpandStep(acc, entry), entry.0) == entry.1
  {
    var (s, c) := entry;
    PutGet(acc, s, c);
    if c >= 3 {
      assert LabOf(s) != s by { assert |LabOf(s)| > |s|; }
      PutOther(Put(acc, s, c), LabOf(s), 1, s);
    }
  }

  /** Dropping the last entry keeps both side conditions of ExpandValues. */
  lemma ExpandPrefix(credits: OMap<int>)
    requires |credits| > 0 && WellFormed(credits) && NoLabCollision(credits)
    ensures WellFormed(credits[..|credits| - 1]) && NoLabCollision(credits[..|credits| - 1])
  {
    var pre := credits[..|credits| - 1];
    forall p, q | 0 <= p < q < |pre| ensures Keys(pre)[p] != Keys(pre)[q] {
      assert Keys(credits)[p] != Keys(credits)[q];
    }
    forall p, q | 0 <= p < |pre| && 0 <= q < |pre| ensures pre[q].0 != LabOf(pre[p].0) {
      assert credits[q].0 != LabOf(credits[p].0);
    }
  }

  /** With distinct subject names and no subject named like a derived lab, a
      subject with credits > 0 requires exactly `credits` sessions. */
  lemma {:induction false} ExpandValue(credits: OMap<int>, i: int)
    requires WellFormed(credits) && NoLabCollision(credits)
    requires 0 <= i < |credits| && credits[i].1 > 0
    ensures HasKey(Expand(credits), credits[i].0)
    ensures Get(Expand(credits), credits[i].0) == credits[i].1
  {
    var n := |credits|;
    assert Expand(credits) == ExpandStep(Expand(credits[..n - 1]), credits[n - 1]);
    if i == n - 1 {
      ExpandStepOwn(Expand(credits[..n - 1]), credits[n - 1]);
    } else {
      assert Keys(credits)[i] != Keys(credits)[n - 1];
      assert credits[i].0 != LabOf(credits[n - 1].0);
      ExpandPrefix(credits);
      assert credits[..n - 1][i] == credits[i];
      ExpandValue(credits[..n - 1], i);
      ExpandStepOther(Expand(credits[..n - 1]), credits[n - 1], credits[i].0);
    }
  }

  /** Under the same conditions a subject with credits >= 3 also requires
      exactly one session of its lab. */
  lemma {:induction false} ExpandLabValue(credits: OMap<int>, i: int)
    requires WellFormed(credits) && NoLabCollision(credits)
    requires 0 <= i < |credits| && credits[i].1 >= 3
    ensures HasKey(Expand(credits), LabOf(credits[i].0))
    ensures Get(Expand(credits), LabOf(credits[i].0)) == 1
  {
    var n := |credits|;
    var (s, c) := credits[n - 1];
    var x := LabOf(credits[i].0);
    assert Expand(credits) == ExpandStep(Expand(credits[..n - 1]), credits[n - 1]);
    if i < n - 1 {
      assert credits[n - 1].0 != x;
      assert x != LabOf(s) by {
        assert Keys(credits)[i] != Keys(credits)[n - 1];
        assert x[..|credits[i].0|] == credits[i].0;
      }
      ExpandPrefix(credits);
      assert credits[..n - 1][i] == credits[i];
      ExpandLabValue(credits[..n - 1], i);
      ExpandStepOther(Expand(credits[..n - 1]), credits[n - 1], x);
    } else {
      PutGet(Put(Expand(credits[..n - 1]), s, c), LabOf(s), 1);
    }
  }

  /** The requirement map of every class: all classes share the expansion. */
  function SubjectAssignments(cfg: Config): (a: map<Name, OMap<int>>)
    ensures forall c :: c in a <==> c in cfg.classes
  {
    map c | c in SetOf(cfg.classes) :: Expand(cfg.credits)
  }

  /** Total of the session counts of one requirement map. */
  function SumValues(m: OMap<int>): int {
    if |m| == 0 then 0 else m[0].1 + SumValues(m[1..])
  }

  /** The total validate_feasibility adds up: every class in the list, repeated
      ones included, contributes all its session counts. */
  function TotalRequired(classes: seq<Name>, a: map<Name, OMap<int>>): int
    requires forall c :: c in classes ==> c in a
  {
    if |classes| == 0 then 0 else SumValues(a[classes[0]]) + TotalRequired(classes[1..], a)
  }

  /** When every class shares one requirement map, the total is the number of
      class entries times its sum. */
  lemma {:induction false} TotalRequiredUniform(classes: seq<Name>, a: map<Name, OMap<int>>, m: OMap<int>)
    requires forall c :: c in classes ==> c in a && a[c] == m
    ensures TotalRequired(classes, a) == |classes| * SumValues(m)
  {
    if |classes| > 0 {
      TotalRequiredUniform(classes[1..], a, m);
    }
  }

  /** `len(teachers) * len(time_slots)` */
  function TeacherCapacity(cfg: Config): int {
    |cfg.teachers| * |cfg.timeSlots|
  }

  /** validate_feasibility */
  function ValidateFeasibility(cfg: Config): (o: Outcome)
    ensures o.Pass? <==> |cfg.classes| * SumValues(Expand(cfg.credits)) <= TeacherCapacity(cfg)
    ensures o.Fail? ==> o.error == InsufficientCapacity(|cfg.classes| * SumValues(Expand(cfg.credits)),
                                                        TeacherCapacity(cfg))
  {
    var a := SubjectAssignments(cfg);
    TotalRequiredUniform(cfg.classes, a, Expand(cfg.credits));
    var total := TotalRequired(cfg.classes, a);
    if total > TeacherCapacity(cfg) then Fail(InsufficientCapacity(total, TeacherCapacity(cfg)))
    else Pass
  }

  /** Everything the constructor checks, in its order: the inputs, the teacher
      coverage, then the capacity. */
  function Construct(cfg: Config): (o: Outcome)
    ensures o.Pass? <==> InputsValid(cfg) &&
                         (forall s :: s in CoverageSubjects(cfg) ==> Covered(cfg, s)) &&
                         |cfg.classes| * SumValues(Expand(cfg.credits)) <= TeacherCapacity(cfg)
    ensures !InputsValid(cfg) ==> o == ValidateInputs(cfg)
  {
    var v := ValidateInputs(cfg);
    if v.Fail? then v
    else
      var c := CheckTeacherCoverage(cfg);
      if c.Fail? then c else ValidateFeasibility(cfg)
  }
}
