/** Subject and time-slot names as the scheduler reads them: the " Lab" naming
    convention for derived lab subjects and the day prefix of a slot label. */
module Names {

  type Name = string

  const LabSuffix: string := " Lab"

  /** `subject.endswith(" Lab")` */
  predicate EndsWithLab(s: string) {
    |s| >= |LabSuffix| && s[|s| - |LabSuffix|..] == LabSuffix
  }

  /** `f"{subject} Lab"`: the name of the lab subject derived from `subject`. */
  function LabOf(subject: string): (r: string)
    ensures EndsWithLab(r)
    ensures |r| == |subject| + |LabSuffix| && r[..|subject|] == subject
  {
    subject + LabSuffix
  }

  /** `s.replace(" Lab", "")`: every occurrence of " Lab", found left to right
      without overlap, is deleted. */
  function StripLab(s: string): (r: string)
    ensures |r| <= |s|
    decreases |s|
  {
    if |s| < |LabSuffix| then s
    else if s[..|LabSuffix|] == LabSuffix then StripLab(s[|LabSuffix|..])
    else [s[0]] + StripLab(s[1..])
  }

  /** True when " Lab" starts at position `i` of `s`. */
  predicate LabAt(s: string, i: int) {
    0 <= i <= |s| - |LabSuffix| && s[i..i + |LabSuffix|] == LabSuffix
  }

  /** True when " Lab" occurs somewhere in `s`. */
  ghost predicate ContainsLab(s: string) {
    exists i :: LabAt(s, i)
  }

  /** Removing " Lab" from a name that does not contain it changes nothing. */
  lemma {:induction false} StripLabNoOccurrence(s: string)
    requires !ContainsLab(s)
    ensures StripLab(s) == s
    decreases |s|
  {
    if |s| >= |LabSuffix| {
      assert s[0..0 + |LabSuffix|] == s[..|LabSuffix|];
      assert !LabAt(s, 0);
      var t := s[1..];
      forall i | 0 <= i <= |t| - |LabSuffix| ensures !LabAt(t, i) {
        assert s[i + 1..i + 1 + |LabSuffix|] == t[i..i + |LabSuffix|];
        assert !LabAt(s, i + 1);
      }
      StripLabNoOccurrence(t);
      assert s == [s[0]] + t;
    }
  }

  /** A name shorter than " Lab" followed by " Lab" does not start with " Lab". */
  lemma ShortThenLab(s: string)
    requires 0 < |s| < |LabSuffix|
    ensures (s + LabSuffix)[..|LabSuffix|] != LabSuffix
  {
    var t := s + LabSuffix;
    assert t[3] == LabSuffix[3 - |s|];
  }

  /** " Lab" cannot overlap itself, so the suffix added by LabOf is removed on
      its own and the rest of the name is treated as before. */
  lemma {:induction false} StripLabOfLab(s: string)
    ensures StripLab(LabOf(s)) == StripLab(s)
    decreases |s|
  {
    var t := s + LabSuffix;
    if |s| == 0 {
      assert t == LabSuffix;
      assert t[|LabSuffix|..] == [];
    } else if |s| < |LabSuffix| {
      ShortThenLab(s);
      assert t[1..] == LabOf(s[1..]);
      StripLabOfLab(s[1..]);
      assert StripLab(t) == [s[0]] + StripLab(s[1..]);
      assert [s[0]] + s[1..] == s;
    } else if s[..|LabSuffix|] == LabSuffix {
      assert t[..|LabSuffix|] == s[..|LabSuffix|];
      assert t[|LabSuffix|..] == s[|LabSuffix|..] + LabSuffix;
      StripLabOfLab(s[|LabSuffix|..]);
    } else {
      assert t[..|LabSuffix|] == s[..|LabSuffix|];
      assert t[1..] == s[1..] + LabSuffix;
      StripLabOfLab(s[1..]);
    }
  }

  /** The base subject of the lab derived from `s` is `s` itself, provided `s`
      does not already contain " Lab". */
  lemma BaseOfLab(s: string)
    requires !ContainsLab(s)
    ensures StripLab(LabOf(s)) == s
  {
    StripLabOfLab(s);
    StripLabNoOccurrence(s);
  }

  /** A lab name is never its own base subject: removing " Lab" shortens it. */
  lemma NotOwnBase(s: string)
    requires EndsWithLab(s)
    ensures |StripLab(s)| < |s|
  {
    var p := s[..|s| - |LabSuffix|];
    assert s == LabOf(p);
    StripLabOfLab(p);
  }

  /** `time_slot.split('-')[0]`: the label up to, not including, the first '-'. */
  function DayOf(slot: string): (d: string)
    ensures d <= slot
    ensures '-' !in d
    ensures |d| < |slot| ==> slot[|d|] == '-'
  {
    if |slot| == 0 || slot[0] == '-' then "" else [slot[0]] + DayOf(slot[1..])
  }
}
