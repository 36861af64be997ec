/** The strings that `parse_coarse` accepts are exactly those of the grammar, cut at the grammar's seams. */
module VersionGrammar {
  import opened Chars
  import opened CNumber
  import opened VersionParse

  lemma {:induction false} EpochNumberIff(e: string)
    requires '-' !in e
    ensures var r := Strtoull(e);
            IsEpochNumber(e) <==> e != "" && !r.range && r.end == |e| && r.value <= UINT_MAX
    ensures IsEpochNumber(e) ==> Strtoull(e).value == Decimal(e[NumberStart(e)..])
  {
    var digits := e[NumberStart(e)..];
    if AllDigits(digits) {
      SpanUnique(digits, IsDigit, |digits|);
    }
    var n := Span(digits, IsDigit);
    if n == |digits| {
      assert digits[..n] == digits;
    }
  }

  /** Reading the epoch succeeds exactly on the prefixes of the grammar, provided no sign '-' occurs:
      strtoul itself would accept " -0:" as well. */
  lemma {:induction false} ReadEpochIff(e: string, rest: string)
    requires '-' !in e
    ensures IsEpochPrefix(e + ":") <==> ReadEpoch(e + (":" + rest), |e|).Some?
    ensures IsEpochPrefix(e + ":") ==> ReadEpoch(e + (":" + rest), |e|) == Some(EpochValue(e + ":"))
  {
    hide NumberStart;
    var p := e + ":";
    assert p[..|p| - 1] == e;
    StrtoullStop(e, ":" + rest);
    EpochNumberIff(e);
    if e == "" {
      assert p == ":";
      assert Strtoull(e) == Reading(0, 0, false);
    } else {
      assert p != ":";
      assert (e + (":" + rest))[0] == e[0] != '-';
    }
  }

  /** An epoch prefix has its only colon at the end and no hyphen. */
  lemma {:induction false} PrefixChars(p: string)
    requires IsEpochPrefix(p) && p != ""
    ensures p[|p| - 1] == ':' && ':' !in p[..|p| - 1] && '-' !in p[..|p| - 1]
    ensures p == p[..|p| - 1] + ":"
  {
    var e := p[..|p| - 1];
    if e != "" {
      var from := NumberStart(e);
      forall i | 0 <= i < |e| ensures e[i] != ':' {
        assert i >= from ==> e[from..][i - from] == e[i];
      }
    }
  }

  /** The value Split returns for a string glued from these parts. */
  function GluedSplit(p: string, us: string, rev: Option<string>): Coarse
    requires IsEpochPrefix(p)
  {
    Cut(EpochValue(p), |p|, |p| + |us|, |p| + |us| + |RevisionPart(rev)|)
  }

  lemma {:induction false} HyphenOfGlued(v: string, p: string, us: string, rev: Option<string>)
    requires Glued(v, p, us, rev)
    ensures Find(v, '-') == |p| + |us|
  {
    if p != "" {
      PrefixChars(p);
    }
    assert forall i :: 0 <= i < |us| ==> us[i] != '-';
    var h := |p| + |us|;
    assert v[..h] == p + us;
    FindUnique(v, '-', h);
  }

  lemma {:induction false} ColonOfGlued(v: string, p: string, us: string, rev: Option<string>)
    requires Glued(v, p, us, rev)
    ensures Find(v, ':') == if p == "" then |v| else |p| - 1
  {
    if p == "" {
      assert forall i :: 0 <= i < |us| ==> us[i] != ':';
      assert v[..|v|] == v;
      FindUnique(v, ':', |v|);
    } else {
      PrefixChars(p);
      assert v[..|p| - 1] == p[..|p| - 1];
      FindUnique(v, ':', |p| - 1);
    }
  }

  lemma {:induction false} CharsOfGlued(v: string, p: string, us: string, rev: Option<string>)
    requires Glued(v, p, us, rev)
    ensures RevisionOk(v, |p| + |us| + 1)
    ensures UpstreamOk(v, |p|, |p| + |us|, |p| > 0, rev.Some?)
  {
    hide IsEpochPrefix, IsAlnum, IsAlpha;
    var h := |p| + |us|;
    forall i | h < i < |v| ensures IsRevChar(v[i]) {
      assert v[i] == rev.value[i - h - 1];
    }
    forall i | |p| <= i < h ensures IsUsChar(v[i], |p| > 0, rev.Some?) {
      assert v[i] == us[i - |p|];
    }
  }

  lemma {:induction false} SplitRestOfGlued(v: string, p: string, us: string, rev: Option<string>)
    requires Glued(v, p, us, rev)
    ensures forall epoch :: SplitRest(v, epoch, |p|) == Some(Cut(epoch, |p|, |p| + |us|, |v|))
  {
    hide Find, RevisionOk, UpstreamOk, IsUpstream, AllRevChars, IsEpochPrefix;
    CharsOfGlued(v, p, us, rev);
    HyphenOfGlued(v, p, us, rev);
  }

  lemma {:induction false} Regroup(a: string, b: string, c: string, d: string)
    ensures a + b + c + d == a + (b + (c + d))
  {
  }

  lemma {:induction false} EpochOfGlued(v: string, p: string, us: string, rev: Option<string>)
    requires Glued(v, p, us, rev) && p != ""
    ensures |p| <= |v| && ReadEpoch(v, |p| - 1) == Some(EpochValue(p))
  {
    PrefixChars(p);
    var e := p[..|p| - 1];
    Regroup(e, ":", us, RevisionPart(rev));
    ReadEpochIff(e, us + RevisionPart(rev));
  }

  /** Every string of the grammar is accepted, and is cut exactly where its parts were glued;
      so no string has two readings. */
  lemma {:induction false} SplitGlued(v: string, p: string, us: string, rev: Option<string>)
    requires Glued(v, p, us, rev)
    ensures Split(v) == Some(GluedSplit(p, us, rev))
  {
    hide Find, ReadEpoch, SplitRest, IsUpstream, AllRevChars, IsEpochNumber;
    ColonOfGlued(v, p, us, rev);
    SplitRestOfGlued(v, p, us, rev);
    if p != "" {
      EpochOfGlued(v, p, us, rev);
    }
  }

  function Prefix(v: string): string
    requires Accepted(v)
  {
    v[..Split(v).value.usAt]
  }

  function Upstream(v: string): string
    requires Accepted(v)
  {
    var c := Split(v).value;
    v[c.usAt..][..c.usLen]
  }

  function Revision(v: string): Option<string>
    requires Accepted(v)
  {
    var c := Split(v).value;
    if c.revAt == c.usAt + c.usLen then None else Some(v[c.revAt..][..c.revLen])
  }

  lemma {:induction false} PrefixOfAccepted(v: string)
    requires Accepted(v)
    ensures IsEpochPrefix(Prefix(v))
  {
    hide Strtoull, IsEpochNumber, ReadEpoch, RevisionOk, UpstreamOk, EpochValue;
    var col, hyp := Find(v, ':'), Find(v, '-');
    if col < |v| {
      var e, rest := v[..col], v[col + 1..];
      assert col < hyp;
      assert forall i :: 0 <= i < col ==> v[..hyp][i] == e[i];
      assert v == e + (":" + rest) && v[..col + 1] == e + ":";
      ReadEpochIff(e, rest);
    }
  }

  lemma {:induction false} CutParts(v: string, epoch: nat, us: nat, hyp: nat)
    requires us <= hyp <= |v| && (hyp < |v| ==> v[hyp] == '-')
    ensures var c := Cut(epoch, us, hyp, |v|);
            v == v[..us] + v[us..][..c.usLen] + (if hyp < |v| then "-" + v[c.revAt..][..c.revLen] else "")
  {
    assert hyp < |v| ==> v[hyp..] == "-" + v[hyp + 1..];
  }

  lemma {:induction false} PartsOfAccepted(v: string)
    requires Accepted(v)
    ensures v == Prefix(v) + Upstream(v) + RevisionPart(Revision(v))
  {
    var c := Split(v).value;
    CutParts(v, c.epoch, c.usAt, Find(v, '-'));
  }

  lemma {:induction false} CharsOfAccepted(v: string)
    requires Accepted(v)
    ensures IsUpstream(Upstream(v), Prefix(v) != "")
    ensures Revision(v).Some? ==> AllRevChars(Revision(v).value)
  {
    hide ReadEpoch;
    var us, hyp := Split(v).value.usAt, Find(v, '-');
    forall i | us <= i < hyp ensures IsRevChar(v[i]) || (us > 0 && v[i] == ':') {
      assert v[..hyp][i] != '-';
      assert IsUsChar(v[i], us > 0, hyp < |v|);
    }
  }

  /** Every accepted string is the glueing of the parts it was cut into: optional epoch prefix, upstream,
      optional hyphen and revision. In particular its one hyphen follows the first colon,
      and the lengths add up, so none of them wrapped around. */
  lemma {:induction false} GlueBack(v: string)
    requires Accepted(v)
    ensures Glued(v, Prefix(v), Upstream(v), Revision(v))
    ensures Split(v) == Some(GluedSplit(Prefix(v), Upstream(v), Revision(v)))
  {
    PrefixOfAccepted(v);
    PartsOfAccepted(v);
    CharsOfAccepted(v);
    SplitGlued(v, Prefix(v), Upstream(v), Revision(v));
  }

  /** The accepted strings are exactly those of the grammar. */
  lemma {:induction false} AcceptedIffGlued(v: string)
    ensures Accepted(v) <==> exists p, us, rev :: Glued(v, p, us, rev)
  {
    if Accepted(v) {
      GlueBack(v);
    }
    forall p, us, rev | Glued(v, p, us, rev) ensures Accepted(v) {
      SplitGlued(v, p, us, rev);
    }
  }
}
