/** `parse_coarse` (tools/version.c): a version string is cut into epoch, upstream and revision. */
module VersionParse {
  import opened Chars
  import opened CNumber

  predicate IsRevChar(c: char) { IsAlnum(c) || c == '+' || c == '.' || c == '~' }

  predicate IsUsChar(c: char, hasEpoch: bool, hasRev: bool)
  {
    IsAlnum(c) || c == '+' || c == '.' || c == '~' || (hasEpoch && c == ':') || (hasRev && c == '-')
  }

  predicate AllRevChars(s: string) { forall i :: 0 <= i < |s| ==> IsRevChar(s[i]) }

  /** The accepted parts, as offsets into the version string (the C code returns pointers). */
  datatype Coarse = Coarse(epoch: nat, usAt: nat, usLen: nat, revAt: nat, revLen: nat)

  // ---------- The accepted strings, described as a grammar ----------

  /** White space, an optional plus sign and digits for a number that fits `unsigned`. */
  predicate IsEpochNumber(e: string)
  {
    var digits := e[NumberStart(e)..];
    digits != "" && AllDigits(digits) && Decimal(digits) <= UINT_MAX && '-' !in e
  }

  /** No epoch, an empty one, or a number; the last two followed by a colon. */
  predicate IsEpochPrefix(p: string)
  {
    p == "" || p == ":" || (|p| > 1 && p[|p| - 1] == ':' && IsEpochNumber(p[..|p| - 1]))
  }

  function EpochValue(p: string): nat
    requires IsEpochPrefix(p)
  {
    if |p| <= 1 then 0 else Decimal(p[..|p| - 1][NumberStart(p[..|p| - 1])..])
  }

  predicate IsUpstream(us: string, hasEpoch: bool)
  {
    forall i :: 0 <= i < |us| ==> IsRevChar(us[i]) || (hasEpoch && us[i] == ':')
  }

  function RevisionPart(rev: Option<string>): string
  {
    if rev.Some? then "-" + rev.value else ""
  }

  /** `v` is an epoch prefix, an upstream version and an optional revision glued together. */
  predicate Glued(v: string, p: string, us: string, rev: Option<string>)
  {
    && v == p + us + RevisionPart(rev)
    && IsEpochPrefix(p)
    && IsUpstream(us, p != "")
    && (rev.Some? ==> AllRevChars(rev.value))
  }

  // ---------- What parse_coarse computes ----------

  function ReadEpoch(v: string, col: nat): Option<nat>
    requires col < |v|
  {
    var r := Strtoull(v);
    if v[0] == '-' || r.range || r.end != col || r.value > UINT_MAX then None else Some(r.value)
  }

  /** The offset at which the check of the upstream characters stops. */
  function UpstreamEnd(us: nat, hyp: nat, len: nat): nat
  {
    if us <= hyp then hyp else len
  }

  predicate RevisionOk(v: string, from: nat) { forall i :: from <= i < |v| ==> IsRevChar(v[i]) }

  predicate UpstreamOk(v: string, us: nat, end: nat, hasEpoch: bool, hasRev: bool)
    requires end <= |v|
  {
    forall i :: us <= i < end ==> IsUsChar(v[i], hasEpoch, hasRev)
  }

  function Cut(epoch: nat, us: nat, hyp: nat, len: nat): Coarse
    requires us <= hyp <= len
  {
    if hyp < len then Coarse(epoch, us, hyp - us, hyp + 1, len - hyp - 1) else Coarse(epoch, us, len - us, len, 0)
  }

  /** The part of the split after the epoch, which ends just before `us`. */
  function SplitRest(v: string, epoch: nat, us: nat): Option<Coarse>
  {
    var hyp := Find(v, '-');
    if !RevisionOk(v, hyp + 1) || !UpstreamOk(v, us, UpstreamEnd(us, hyp, |v|), us > 0, hyp < |v|) then None
    else if hyp < us then None // then v[us - 1] is a colon after the hyphen, already refused
    else Some(Cut(epoch, us, hyp, |v|))
  }

  function Split(v: string): Option<Coarse>
  {
    var col := Find(v, ':');
    var epoch := if col < |v| then ReadEpoch(v, col) else Some(0);
    if epoch.None? then None
    else SplitRest(v, epoch.value, if col < |v| then col + 1 else 0)
  }

  predicate Accepted(v: string) { Split(v).Some? }

  /** The loop over the characters after the hyphen. */
  method CheckRevision(v: string, from: nat) returns (ok: bool)
    requires from <= |v|
    ensures ok <==> RevisionOk(v, from)
  {
    var c := from;
    while c < |v|
      invariant from <= c <= |v|
      invariant forall i :: from <= i < c ==> IsRevChar(v[i])
    {
      if !IsRevChar(v[c]) {
        return false;
      }
      c := c + 1;
    }
    return true;
  }

  /** The loop over the upstream characters, up to the hyphen or the end of the string. */
  method CheckUpstream(v: string, us: nat, hyp: nat, hasEpoch: bool) returns (ok: bool)
    requires us <= |v| && hyp <= |v|
    ensures ok <==> UpstreamOk(v, us, UpstreamEnd(us, hyp, |v|), hasEpoch, hyp < |v|)
  {
    var c := us;
    while c < |v| && c != hyp
      invariant us <= c <= UpstreamEnd(us, hyp, |v|)
      invariant forall i :: us <= i < c ==> IsUsChar(v[i], hasEpoch, hyp < |v|)
    {
      if !IsUsChar(v[c], hasEpoch, hyp < |v|) {
        return false;
      }
      c := c + 1;
    }
    return true;
  }

  /** A colon behind the hyphen is no revision character, so an epoch ends before the hyphen. */
  lemma {:induction false} EpochBeforeHyphen(v: string, us: nat, hyp: nat)
    requires us <= |v| && hyp <= |v| && (us > 0 ==> v[us - 1] == ':') && (hyp < |v| ==> v[hyp] == '-')
    requires RevisionOk(v, hyp + 1)
    ensures us <= hyp
  {
  }

  method ParseCoarse(v: CString) returns (ok: bool, epoch: nat, upstream: nat, usLen: nat, rev: nat, revLen: nat)
    ensures ok <==> Split(v).Some?
    ensures ok ==> Split(v).value == Coarse(epoch, upstream, usLen, rev, revLen)
  {
    hide Strtoull, UpstreamOk, SizeT;
    ok, epoch, upstream, usLen, rev, revLen := false, 0, 0, 0, 0, 0;
    var col := Find(v, ':');
    if col < |v| {
      if v[0] == '-' {
        return;
      }
      var u := Strtoull(v);
      if u.range || u.end != col || u.value > UINT_MAX {
        return;
      }
      epoch, upstream := u.value, col + 1;
    }
    assert Split(v) == SplitRest(v, epoch, upstream);
    var hyp := Find(v, '-');
    if hyp < |v| {
      rev, revLen := hyp + 1, |v| - (hyp + 1);
      usLen := SizeT(hyp - upstream);
      ok := CheckRevision(v, hyp + 1);
      if !ok {
        return;
      }
    } else {
      rev, revLen := |v|, 0;
      usLen := |v| - upstream;
    }
    EpochBeforeHyphen(v, upstream, hyp);
    ok := CheckUpstream(v, upstream, hyp, col < |v|);
  }
}
