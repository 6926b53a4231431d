// Sender resolution over a sequence of signers (`SenderResolver`, src/lib.rs:476-545).
module Sender {
  import opened Octets
  import opened Arrangements

  /** One call of `update`: the inner From header and what the signer's certificate says. */
  datatype Claim = Claim(address: Option<string>, name: Option<string>, emails: seq<string>, names: seq<string>)

  datatype CaseMismatch = CaseMismatch(from: string, cert: string)

  // ---------- Comparison ----------

  function LowerChar(c: char): char {
    if 'A' <= c <= 'Z' then c + ('a' - 'A') else c
  }

  predicate EqIgnoreCase(a: string, b: string) {
    |a| == |b| && forall i :: 0 <= i < |a| ==> LowerChar(a[i]) == LowerChar(b[i])
  }

  /** The part before the first @, if there is one. */
  function LocalPart(s: string): Option<string> {
    if s == "" then None
    else if s[0] == '@' then Some("")
    else match LocalPart(s[1..])
      case None => None
      case Some(rest) => Some([s[0]] + rest)
  }

  /** Mail addresses are the same up to the IDNA form of the domain (`toALabel`) and ASCII case. */
  predicate SameMailbox(toALabel: string -> string, a: string, b: string) {
    EqIgnoreCase(toALabel(a), toALabel(b))
  }

  // ---------- What one claim proves ----------

  datatype Match = Unmatched | AddressOnly(address: string) | Full(address: string, name: string)

  /** What the certificate confirms of the inner From header. */
  function Confirmed(toALabel: string -> string, c: Claim): Match {
    if c.address.None? || !(exists e :: e in c.emails && SameMailbox(toALabel, e, c.address.value)) then Unmatched
    else if c.name.Some? && exists n :: n in c.names && EqIgnoreCase(n, c.name.value) then Full(c.address.value, c.name.value)
    else AddressOnly(c.address.value)
  }

  /** The first certificate address that is the sender's. */
  function FirstSame(toALabel: string -> string, emails: seq<string>, address: string): Option<string> {
    if emails == [] then None
    else if SameMailbox(toALabel, emails[0], address) then Some(emails[0])
    else FirstSame(toALabel, emails[1..], address)
  }

  /** The sender's local part differs from that certificate address's in case only (RFC 9598, section 5). */
  function CaseWarnings(toALabel: string -> string, c: Claim): seq<CaseMismatch> {
    if c.address.None? || LocalPart(c.address.value).None? then []
    else match FirstSame(toALabel, c.emails, c.address.value)
      case None => []
      case Some(e) =>
        match LocalPart(toALabel(e))
        case None => []
        case Some(local) =>
          var from := LocalPart(c.address.value).value;
          if from != local && EqIgnoreCase(from, local) then [CaseMismatch(c.address.value, e)] else []
  }

  /** A full match is kept for good; before that the latest confirmation counts. */
  function Next(m: Match, confirmed: Match): Match {
    if m.Full? || confirmed.Unmatched? then m else confirmed
  }

  class SenderResolver {
    var fromAddress: Option<string>
    var fromComment: Option<string>
    var senderMatched: bool
    var commentMatched: bool

    predicate Valid()
      reads this
    {
      && (fromAddress.Some? <==> senderMatched)
      && (fromComment.Some? <==> commentMatched)
      && (commentMatched ==> senderMatched)
    }

    function Resolved(): Match
      reads this
      requires Valid()
    {
      if !senderMatched then Unmatched
      else if commentMatched then Full(fromAddress.value, fromComment.value)
      else AddressOnly(fromAddress.value)
    }

    constructor ()
      ensures Valid() && Resolved() == Unmatched
    {
      fromAddress, fromComment := None, None;
      senderMatched, commentMatched := false, false;
    }

    method Update(toALabel: string -> string, c: Claim) returns (updated: bool, warnings: seq<CaseMismatch>)
      requires Valid()
      modifies this
      ensures Valid()
      ensures Resolved() == Next(old(Resolved()), Confirmed(toALabel, c))
      ensures updated <==> !old(Resolved()).Full? && !Confirmed(toALabel, c).Unmatched?
      ensures warnings == if updated then CaseWarnings(toALabel, c) else []
    {
      hide LocalPart, EqIgnoreCase;
      warnings := [];
      if c.address.None? {
        return false, warnings;
      }
      var addressMatches := exists e :: e in c.emails && SameMailbox(toALabel, e, c.address.value);
      if !addressMatches || (senderMatched && commentMatched) {
        return false, warnings;
      }
      var local := LocalPart(c.address.value);
      if local.Some? {
        assert c.emails[0..] == c.emails;
        for i := 0 to |c.emails|
          invariant FirstSame(toALabel, c.emails, c.address.value) == FirstSame(toALabel, c.emails[i..], c.address.value)
          invariant warnings == []
        {
          var san := c.emails[i];
          assert c.emails[i..][0] == san && c.emails[i..][1..] == c.emails[i + 1..];
          if SameMailbox(toALabel, san, c.address.value) {
            var certLocal := LocalPart(toALabel(san));
            if certLocal.Some? && local.value != certLocal.value && EqIgnoreCase(local.value, certLocal.value) {
              warnings := [CaseMismatch(c.address.value, san)];
            }
            break;
          }
        }
      }
      var commentMatches := c.name.Some? && exists n :: n in c.names && EqIgnoreCase(n, c.name.value);
      fromAddress := c.address;
      fromComment := if commentMatches then c.name else None;
      senderMatched, commentMatched := true, commentMatches;
      return true, warnings;
    }
  }

  // ---------- Whole sequences of updates ----------

  function Run(toALabel: string -> string, claims: seq<Claim>, m: Match): Match {
    if claims == [] then m else Run(toALabel, claims[1..], Next(m, Confirmed(toALabel, claims[0])))
  }

  function Rank(m: Match): nat {
    match m case Unmatched => 0 case AddressOnly(_) => 1 case Full(_, _) => 2
  }

  /** Resolution never moves backwards, and stands still after the first full match. */
  lemma {:induction false} NeverBackwards(toALabel: string -> string, claims: seq<Claim>, m: Match, k: nat)
    requires k <= |claims|
    ensures Rank(Run(toALabel, claims[..k], m)) <= Rank(Run(toALabel, claims, m))
    ensures Run(toALabel, claims[..k], m).Full? ==> Run(toALabel, claims, m) == Run(toALabel, claims[..k], m)
  {
    RunSplit(toALabel, claims[..k], claims[k..], m);
    assert claims[..k] + claims[k..] == claims;
    OnlyUp(toALabel, claims[k..], Run(toALabel, claims[..k], m));
  }

  lemma {:induction false} RunSplit(toALabel: string -> string, a: seq<Claim>, b: seq<Claim>, m: Match)
    ensures Run(toALabel, a + b, m) == Run(toALabel, b, Run(toALabel, a, m))
  {
    hide Confirmed;
    if a == [] {
      assert a + b == b;
    } else {
      assert (a + b)[1..] == a[1..] + b;
      RunSplit(toALabel, a[1..], b, Next(m, Confirmed(toALabel, a[0])));
    }
  }

  lemma {:induction false} OnlyUp(toALabel: string -> string, claims: seq<Claim>, m: Match)
    ensures Rank(m) <= Rank(Run(toALabel, claims, m))
    ensures m.Full? ==> Run(toALabel, claims, m) == m
  {
    hide Confirmed;
    if claims != [] {
      OnlyUp(toALabel, claims[1..], Next(m, Confirmed(toALabel, claims[0])));
    }
  }

  /** The name is resolved exactly when some claim confirms it. */
  lemma {:induction false} FullExactly(toALabel: string -> string, claims: seq<Claim>, m: Match)
    ensures Run(toALabel, claims, m).Full? <==>
      m.Full? || exists c :: c in claims && Confirmed(toALabel, c).Full?
  {
    hide Confirmed;
    if claims != [] {
      FullExactly(toALabel, claims[1..], Next(m, Confirmed(toALabel, claims[0])));
      HeadOrTail(claims);
    }
  }

  /** Claim i decides: it is the first full confirmation, or there is none and it is the last of the address. */
  ghost predicate Decides(toALabel: string -> string, claims: seq<Claim>, i: nat)
    requires i < |claims|
  {
    var c := Confirmed(toALabel, claims[i]);
    || (c.Full? && forall j :: 0 <= j < i ==> !Confirmed(toALabel, claims[j]).Full?)
    || (c.AddressOnly? && (forall j :: 0 <= j < |claims| ==> !Confirmed(toALabel, claims[j]).Full?)
        && forall j :: i < j < |claims| ==> Confirmed(toALabel, claims[j]).Unmatched?)
  }

  /** The result is what the deciding claim confirms; without one, no claim confirms anything. */
  lemma {:induction false} ResolvedExactly(toALabel: string -> string, claims: seq<Claim>)
    ensures Run(toALabel, claims, Unmatched).Unmatched? <==>
      forall i :: 0 <= i < |claims| ==> Confirmed(toALabel, claims[i]).Unmatched?
    ensures forall i :: 0 <= i < |claims| && Decides(toALabel, claims, i) ==>
      Run(toALabel, claims, Unmatched) == Confirmed(toALabel, claims[i])
    ensures !Run(toALabel, claims, Unmatched).Unmatched? ==> exists i :: 0 <= i < |claims| && Decides(toALabel, claims, i)
    decreases |claims|
  {
    hide Confirmed;
    if claims != [] {
      var n := |claims| - 1;
      var init, last := claims[..n], Confirmed(toALabel, claims[n]);
      ResolvedExactly(toALabel, init);
      assert init + [claims[n]] == claims;
      RunSplit(toALabel, init, [claims[n]], Unmatched);
      assert Run(toALabel, claims, Unmatched) == Next(Run(toALabel, init, Unmatched), last) by {
        assert [claims[n]][1..] == [];
      }
      LastClaim(toALabel, claims);
    }
  }

  /** One more claim decides exactly when it moves the resolution. */
  lemma LastClaim(toALabel: string -> string, claims: seq<Claim>)
    requires claims != []
    requires var init := claims[..|claims| - 1];
      && (Run(toALabel, init, Unmatched).Unmatched? <==>
            forall i :: 0 <= i < |init| ==> Confirmed(toALabel, init[i]).Unmatched?)
      && (forall i :: 0 <= i < |init| && Decides(toALabel, init, i) ==>
            Run(toALabel, init, Unmatched) == Confirmed(toALabel, init[i]))
      && (!Run(toALabel, init, Unmatched).Unmatched? ==> exists i :: 0 <= i < |init| && Decides(toALabel, init, i))
    requires Run(toALabel, claims, Unmatched)
          == Next(Run(toALabel, claims[..|claims| - 1], Unmatched), Confirmed(toALabel, claims[|claims| - 1]))
    ensures Run(toALabel, claims, Unmatched).Unmatched? <==>
      forall i :: 0 <= i < |claims| ==> Confirmed(toALabel, claims[i]).Unmatched?
    ensures forall i :: 0 <= i < |claims| && Decides(toALabel, claims, i) ==>
      Run(toALabel, claims, Unmatched) == Confirmed(toALabel, claims[i])
    ensures !Run(toALabel, claims, Unmatched).Unmatched? ==> exists i :: 0 <= i < |claims| && Decides(toALabel, claims, i)
  {
    hide Confirmed, Run;
    var n := |claims| - 1;
    var init := claims[..n];
    assert forall i :: 0 <= i < n ==> init[i] == claims[i];
    var before := Run(toALabel, init, Unmatched);
    if !before.Unmatched? {
      var i :| 0 <= i < |init| && Decides(toALabel, init, i);
      assert before == Confirmed(toALabel, claims[i]);
      if before.Full? || Confirmed(toALabel, claims[n]).Unmatched? {
        assert Decides(toALabel, claims, i);
      } else {
        assert Decides(toALabel, claims, n);
      }
    } else if !Confirmed(toALabel, claims[n]).Unmatched? {
      assert Decides(toALabel, claims, n);
    }
    forall i | 0 <= i < |claims| && Decides(toALabel, claims, i)
      ensures Run(toALabel, claims, Unmatched) == Confirmed(toALabel, claims[i])
    {
      if i < n && !Decides(toALabel, init, i) {
        assert false;
      }
    }
  }

  /** Some claim confirms exactly this. */
  predicate Among(toALabel: string -> string, claims: seq<Claim>, v: Match) {
    exists c :: c in claims && Confirmed(toALabel, c) == v
  }

  /** Resolution succeeds as far as any claim allows, and only with what some claim confirms. */
  lemma {:induction false} ResolvedAmong(toALabel: string -> string, claims: seq<Claim>)
    ensures var m := Run(toALabel, claims, Unmatched);
      && (m.Unmatched? <==> forall v :: Among(toALabel, claims, v) ==> v.Unmatched?)
      && (!m.Unmatched? ==> Among(toALabel, claims, m))
      && (m.Full? <==> exists v :: Among(toALabel, claims, v) && v.Full?)
  {
    hide Confirmed, Run;
    ResolvedExactly(toALabel, claims);
    FullExactly(toALabel, claims, Unmatched);
    forall c | c in claims ensures Among(toALabel, claims, Confirmed(toALabel, c)) {
    }
  }

  // ---------- The comparisons, character by character ----------

  /** The same character, or the same letter of the ASCII alphabet in the other case. */
  predicate SameLetter(a: char, b: char) {
    || a == b
    || ('A' <= a <= 'Z' && b as int == a as int + 32)
    || ('A' <= b <= 'Z' && a as int == b as int + 32)
  }

  predicate SameText(a: string, b: string) {
    |a| == |b| && forall i :: 0 <= i < |a| ==> SameLetter(a[i], b[i])
  }

  lemma LowerCharExactly(a: char, b: char)
    ensures LowerChar(a) == LowerChar(b) <==> SameLetter(a, b)
  {
  }

  lemma EqIgnoreCaseExactly(a: string, b: string)
    ensures EqIgnoreCase(a, b) <==> SameText(a, b)
  {
    hide LowerChar, SameLetter;
    forall i | 0 <= i < |a| && i < |b| ensures LowerChar(a[i]) == LowerChar(b[i]) <==> SameLetter(a[i], b[i]) {
      LowerCharExactly(a[i], b[i]);
    }
  }

  /** The certificate has the address of the inner From, up to the A-label form of the domain and ASCII case. */
  ghost predicate HasAddress(toALabel: string -> string, c: Claim) {
    c.address.Some? && exists e :: e in c.emails && SameText(toALabel(e), toALabel(c.address.value))
  }

  /** The certificate has the name of the inner From, up to ASCII case. */
  ghost predicate HasName(c: Claim) {
    c.name.Some? && exists n :: n in c.names && SameText(n, c.name.value)
  }

  lemma ConfirmedExactly(toALabel: string -> string, c: Claim)
    ensures !HasAddress(toALabel, c) ==> Confirmed(toALabel, c) == Unmatched
    ensures HasAddress(toALabel, c) && !HasName(c) ==> Confirmed(toALabel, c) == AddressOnly(c.address.value)
    ensures HasAddress(toALabel, c) && HasName(c) ==> Confirmed(toALabel, c) == Full(c.address.value, c.name.value)
  {
    hide EqIgnoreCase, SameText;
    if c.address.Some? {
      forall e | e in c.emails
        ensures SameMailbox(toALabel, e, c.address.value) <==> SameText(toALabel(e), toALabel(c.address.value))
      {
        EqIgnoreCaseExactly(toALabel(e), toALabel(c.address.value));
      }
    }
    if c.name.Some? {
      forall n | n in c.names ensures EqIgnoreCase(n, c.name.value) <==> SameText(n, c.name.value) {
        EqIgnoreCaseExactly(n, c.name.value);
      }
    }
  }

  /** What stands before the first @, if there is one. */
  lemma {:induction false} LocalPartExactly(s: string)
    ensures LocalPart(s).None? <==> '@' !in s
    ensures LocalPart(s).Some? ==> var p := LocalPart(s).value; '@' !in p && p + "@" <= s
  {
    if s != "" {
      LocalPartExactly(s[1..]);
      assert s == [s[0]] + s[1..];
      if s[0] != '@' && LocalPart(s[1..]).Some? {
        var p := LocalPart(s[1..]).value;
        assert [s[0]] + p + "@" == [s[0]] + (p + "@");
      }
    }
  }

  /** A warning says that the sender's local part and that of the first same certificate address differ, but not as text. */
  lemma {:induction false} CaseWarningsExactly(toALabel: string -> string, c: Claim, w: CaseMismatch)
    ensures CaseWarnings(toALabel, c) == [w] <==>
      && c.address == Some(w.from) && FirstSame(toALabel, c.emails, w.from) == Some(w.cert)
      && LocalPart(w.from).Some? && LocalPart(toALabel(w.cert)).Some?
      && LocalPart(w.from) != LocalPart(toALabel(w.cert))
      && SameText(LocalPart(w.from).value, LocalPart(toALabel(w.cert)).value)
    ensures |CaseWarnings(toALabel, c)| <= 1
  {
    hide EqIgnoreCase, SameText, LocalPart, FirstSame;
    if c.address.Some? && LocalPart(c.address.value).Some? {
      var first := FirstSame(toALabel, c.emails, c.address.value);
      if first.Some? && LocalPart(toALabel(first.value)).Some? {
        EqIgnoreCaseExactly(LocalPart(c.address.value).value, LocalPart(toALabel(first.value)).value);
        if CaseWarnings(toALabel, c) == [w] {
          assert [w][0] == CaseMismatch(c.address.value, first.value);
        }
      }
    }
  }

  lemma {:induction false} FirstSameExactly(toALabel: string -> string, emails: seq<string>, address: string)
    ensures FirstSame(toALabel, emails, address).None? <==>
      forall e :: e in emails ==> !SameText(toALabel(e), toALabel(address))
    ensures FirstSame(toALabel, emails, address).Some? ==>
      exists k :: 0 <= k < |emails| && FirstSame(toALabel, emails, address) == Some(emails[k])
        && SameText(toALabel(emails[k]), toALabel(address))
        && forall j :: 0 <= j < k ==> !SameText(toALabel(emails[j]), toALabel(address))
  {
    hide EqIgnoreCase, SameText;
    if emails != [] {
      HeadOrTail(emails);
      EqIgnoreCaseExactly(toALabel(emails[0]), toALabel(address));
      FirstSameExactly(toALabel, emails[1..], address);
      if !SameMailbox(toALabel, emails[0], address) && FirstSame(toALabel, emails[1..], address).Some? {
        var k :| 0 <= k < |emails[1..]| && FirstSame(toALabel, emails[1..], address) == Some(emails[1..][k])
          && SameText(toALabel(emails[1..][k]), toALabel(address))
          && forall j :: 0 <= j < k ==> !SameText(toALabel(emails[1..][j]), toALabel(address));
        assert emails[k + 1] == emails[1..][k];
        forall j | 0 <= j < k + 1 ensures !SameText(toALabel(emails[j]), toALabel(address)) {
          assert j > 0 ==> emails[j] == emails[1..][j - 1];
        }
      }
    }
  }
}
