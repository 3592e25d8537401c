/**
  The e-mail constraint of an item: a null check followed by a whole-string
  match against the constant pattern `^[A-Za-z0-9+_.-]+@[A-Za-z0-9.-]+$`.

  The pattern is compiled here by hand into a small automaton over its two
  character classes (`Scan`), and the automaton is proved to accept exactly
  the strings `L + "@" + D` with a non-empty local part `L` over the first
  class and a non-empty domain `D` over the second (`IsAddress`).
*/
module EmailValidation {
  import opened Wrappers

  /** The class `[A-Za-z0-9+_.-]` before the `@`. */
  predicate IsLocalChar(c: char) {
    ('A' <= c <= 'Z') || ('a' <= c <= 'z') || ('0' <= c <= '9')
    || c == '+' || c == '_' || c == '.' || c == '-'
  }

  /** The class `[A-Za-z0-9.-]` after the `@`. */
  predicate IsDomainChar(c: char) {
    ('A' <= c <= 'Z') || ('a' <= c <= 'z') || ('0' <= c <= '9')
    || c == '.' || c == '-'
  }

  predicate AllLocal(s: string) {
    forall k :: 0 <= k < |s| ==> IsLocalChar(s[k])
  }

  predicate AllDomain(s: string) {
    forall k :: 0 <= k < |s| ==> IsDomainChar(s[k])
  }

  /** Reference reading of the pattern: the string splits at an `@` into a
      non-empty run of local characters and a non-empty run of domain
      characters, with nothing before or after. */
  ghost predicate IsAddress(s: string) {
    exists i :: 0 < i < |s| - 1 && s[i] == '@' && AllLocal(s[..i]) && AllDomain(s[i + 1..])
  }

  /** The automaton of the pattern: `Local` after one or more local
      characters, `At` right after the `@`, `Domain` after one or more
      domain characters; `Reject` is the dead state. */
  datatype ScanState = Start | Local | At | Domain | Reject

  function Next(st: ScanState, c: char): ScanState {
    match st
    case Start => if IsLocalChar(c) then Local else Reject
    case Local => if IsLocalChar(c) then Local else if c == '@' then At else Reject
    case At => if IsDomainChar(c) then Domain else Reject
    case Domain => if IsDomainChar(c) then Domain else Reject
    case Reject => Reject
  }

  function Scan(st: ScanState, s: string): ScanState
    decreases |s|
  {
    if s == [] then st else Scan(Next(st, s[0]), s[1..])
  }

  /** `matcher(s).matches()`: the whole string must be consumed and the
      automaton must end in its only accepting state. */
  predicate Matches(s: string) {
    Scan(Start, s) == Domain
  }

  /** `isValid`: null is rejected, anything else must match the pattern. */
  function IsValid(s: Option<string>): (ok: bool)
    ensures s.None? ==> !ok
    ensures s.Some? ==> (ok <==> IsAddress(s.value))
  {
    match s
    case None => false
    case Some(str) => MatchesIffAddress(str); Matches(str)
  }

  // ---------------------------------------------------------------------
  // The automaton agrees with the reference reading.

  lemma AllLocalCons(c: char, s: string)
    ensures AllLocal([c] + s) <==> IsLocalChar(c) && AllLocal(s)
  {
    var t := [c] + s;
    assert t[0] == c;
    if AllLocal(t) {
      forall k | 0 <= k < |s| ensures IsLocalChar(s[k]) {
        assert s[k] == t[k + 1];
      }
    }
    if IsLocalChar(c) && AllLocal(s) {
      forall k | 0 < k < |t| ensures IsLocalChar(t[k]) {
        assert t[k] == s[k - 1];
      }
    }
  }

  lemma AllDomainCons(c: char, s: string)
    ensures AllDomain([c] + s) <==> IsDomainChar(c) && AllDomain(s)
  {
    var t := [c] + s;
    assert t[0] == c;
    if AllDomain(t) {
      forall k | 0 <= k < |s| ensures IsDomainChar(s[k]) {
        assert s[k] == t[k + 1];
      }
    }
    if IsDomainChar(c) && AllDomain(s) {
      forall k | 0 < k < |t| ensures IsDomainChar(t[k]) {
        assert t[k] == s[k - 1];
      }
    }
  }

  lemma {:induction false} ScanReject(s: string)
    ensures Scan(Reject, s) == Reject
    decreases |s|
  {
    if s != [] {
      ScanReject(s[1..]);
    }
  }

  lemma {:induction false} ScanDomain(s: string)
    ensures Scan(Domain, s) == Domain <==> AllDomain(s)
    decreases |s|
  {
    if s != [] {
      assert s == [s[0]] + s[1..];
      AllDomainCons(s[0], s[1..]);
      if IsDomainChar(s[0]) {
        ScanDomain(s[1..]);
      } else {
        ScanReject(s[1..]);
      }
    }
  }

  lemma ScanAt(s: string)
    ensures Scan(At, s) == Domain <==> |s| > 0 && AllDomain(s)
  {
    if s != [] {
      assert s == [s[0]] + s[1..];
      AllDomainCons(s[0], s[1..]);
      if IsDomainChar(s[0]) {
        ScanDomain(s[1..]);
      } else {
        ScanReject(s[1..]);
      }
    }
  }

  /** What remains to be read once the local part has begun: more local
      characters, the `@`, then a non-empty domain. */
  ghost predicate LocalThenDomain(t: string) {
    exists i :: 0 <= i < |t| - 1 && t[i] == '@' && AllLocal(t[..i]) && AllDomain(t[i + 1..])
  }

  /** Putting one more local character in front of a split string. */
  lemma ShiftSplit(t: string, i: int)
    requires |t| > 0 && 0 <= i < |t| - 1
    ensures t[..i + 1] == [t[0]] + t[1..][..i]
    ensures t[i + 2..] == t[1..][i + 1..]
    ensures t[i + 1] == t[1..][i]
  {
  }

  lemma {:induction false} ScanLocal(t: string)
    ensures Scan(Local, t) == Domain <==> LocalThenDomain(t)
    decreases |t|
  {
    if t == [] {
    } else if IsLocalChar(t[0]) {
      var u := t[1..];
      ScanLocal(u);
      if LocalThenDomain(u) {
        var i :| 0 <= i < |u| - 1 && u[i] == '@' && AllLocal(u[..i]) && AllDomain(u[i + 1..]);
        ShiftSplit(t, i + 1 - 1);
        AllLocalCons(t[0], u[..i]);
        assert 0 <= i + 1 < |t| - 1 && t[i + 1] == '@' && AllLocal(t[..i + 1]) && AllDomain(t[i + 2..]);
      }
      if LocalThenDomain(t) {
        var i :| 0 <= i < |t| - 1 && t[i] == '@' && AllLocal(t[..i]) && AllDomain(t[i + 1..]);
        assert i != 0;
        ShiftSplit(t, i - 1);
        AllLocalCons(t[0], u[..i - 1]);
        assert 0 <= i - 1 < |u| - 1 && u[i - 1] == '@' && AllLocal(u[..i - 1]) && AllDomain(u[i..]);
      }
    } else if t[0] == '@' {
      ScanAt(t[1..]);
      if |t[1..]| > 0 && AllDomain(t[1..]) {
        assert t[..0] == [];
        assert 0 <= 0 < |t| - 1 && t[0] == '@' && AllLocal(t[..0]) && AllDomain(t[0 + 1..]);
      }
    } else {
      ScanReject(t[1..]);
    }
  }

  /** The automaton accepts exactly the strings of the reference reading. */
  lemma MatchesIffAddress(s: string)
    ensures Matches(s) <==> IsAddress(s)
  {
    if s != [] && IsLocalChar(s[0]) {
      var u := s[1..];
      ScanLocal(u);
      if LocalThenDomain(u) {
        var i :| 0 <= i < |u| - 1 && u[i] == '@' && AllLocal(u[..i]) && AllDomain(u[i + 1..]);
        ShiftSplit(s, i);
        AllLocalCons(s[0], u[..i]);
        assert 0 < i + 1 < |s| - 1 && s[i + 1] == '@' && AllLocal(s[..i + 1]) && AllDomain(s[i + 2..]);
      }
      if IsAddress(s) {
        var i :| 0 < i < |s| - 1 && s[i] == '@' && AllLocal(s[..i]) && AllDomain(s[i + 1..]);
        ShiftSplit(s, i - 1);
        AllLocalCons(s[0], u[..i - 1]);
        assert 0 <= i - 1 < |u| - 1 && u[i - 1] == '@' && AllLocal(u[..i - 1]) && AllDomain(u[i..]);
      }
    } else if s != [] {
      ScanReject(s[1..]);
    }
  }

  // ---------------------------------------------------------------------
  // What the pattern accepts and rejects.

  /** An address built from two parts passes exactly when the part before
      the `@` is a non-empty run of `[A-Za-z0-9+_.-]` and the part after it
      a non-empty run of `[A-Za-z0-9.-]`. */
  lemma ComposeAccepted(local: string, domain: string)
    ensures IsValid(Some(local + "@" + domain))
        <==> |local| > 0 && AllLocal(local) && |domain| > 0 && AllDomain(domain)
  {
    var s := local + "@" + domain;
    var n := |local|;
    assert s[n] == '@';
    assert s[..n] == local && s[n + 1..] == domain;
    if IsAddress(s) {
      var i :| 0 < i < |s| - 1 && s[i] == '@' && AllLocal(s[..i]) && AllDomain(s[i + 1..]);
      OnlyAtIsSplit(s, i);
    }
  }

  /** Neither class contains `@`, so a split point is the string's only `@`. */
  lemma OnlyAtIsSplit(s: string, i: int)
    requires 0 <= i < |s| && AllLocal(s[..i]) && AllDomain(s[i + 1..])
    ensures forall k :: 0 <= k < |s| && k != i ==> s[k] != '@'
  {
  }

  /** Every accepted string is such an address: it splits into its two parts. */
  lemma AcceptedSplits(s: string) returns (local: string, domain: string)
    requires IsValid(Some(s))
    ensures s == local + "@" + domain
    ensures |local| > 0 && AllLocal(local) && |domain| > 0 && AllDomain(domain)
  {
    var i :| 0 < i < |s| - 1 && s[i] == '@' && AllLocal(s[..i]) && AllDomain(s[i + 1..]);
    local, domain := s[..i], s[i + 1..];
    assert s == local + "@" + domain;
  }

  /** Neither class contains `@`, so an accepted string holds exactly one. */
  lemma AcceptedHasOneAt(s: string)
    requires IsValid(Some(s))
    ensures multiset(s)['@'] == 1
  {
    var local, domain := AcceptedSplits(s);
    assert '@' !in local;
    assert '@' !in domain;
    assert multiset(s) == multiset(local) + multiset{'@'} + multiset(domain);
  }

  /** An accepted string uses only ASCII letters, digits, `+ _ . -` and the
      `@`; in particular it holds no space, tab or line break. */
  lemma AcceptedAlphabet(s: string)
    requires IsValid(Some(s))
    ensures forall k :: 0 <= k < |s| ==> IsLocalChar(s[k]) || s[k] == '@'
    ensures ' ' !in s && '\t' !in s && '\n' !in s && '\r' !in s
  {
  }

  /** The empty string, and strings that begin or end with `@`, are rejected. */
  lemma RejectsEmptyAndEdgeAt(s: string)
    requires s == [] || s[0] == '@' || s[|s| - 1] == '@'
    ensures !IsValid(Some(s))
  {
  }

  /** `+` and `_` belong to the local class only: after the `@` they are
      never found in an accepted string. */
  lemma PlusUnderscoreOnlyBeforeAt(s: string)
    requires IsValid(Some(s))
    ensures forall i, j :: 0 <= i < j < |s| && s[i] == '@' ==> s[j] != '+' && s[j] != '_'
  {
  }
}
