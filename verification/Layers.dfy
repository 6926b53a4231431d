// The loop over nested S/MIME layers (src/decrypt_verify.rs:14-83).
module Layers {
  import opened Octets

  const MAX_DECRYPT_DEPTH: nat := 4

  datatype Sender = Sender(address: Option<string>, comment: Option<string>, date: Option<int>)

  datatype Failure = DepthExceeded | LayerFailure(what: string)

  datatype Report<S, E> = Report(signers: seq<S>, failures: seq<Failure>, content: Option<Bytes>, sender: Sender,
                                 encryption: Option<E>)

  /** The From header and date a layer falls back on. */
  datatype Outermost = Outermost(from: Option<(string, Option<string>)>, date: Option<int>)

  /**
   * What one layer does, and which content is S/MIME again: UTF-8, parsable, and an opaque or signed S/MIME type.
   */
  datatype Reader<!S, !E> = Reader(
    layer: (Bytes, Outermost) -> Report<S, E>,
    isSmime: Bytes -> bool)
  {
    function Inner(r: Report<S, E>): Option<Bytes> {
      if r.content.Some? && isSmime(r.content.value) then r.content else None
    }
  }

  const NOTHING_OUTSIDE := Outermost(None, None)

  function OutermostOf(s: Sender): Outermost {
    Outermost(if s.address.Some? then Some((s.address.value, s.comment)) else None, s.date)
  }

  function OrElse<T>(a: Option<T>, b: Option<T>): Option<T> { if a.Some? then a else b }

  function FallBack(own: Sender, outer: Sender): Sender {
    Sender(OrElse(own.address, outer.address), OrElse(own.comment, outer.comment), OrElse(own.date, outer.date))
  }

  // ---------- The layers of a message ----------

  /** The reports of the layers met inside one another, at most `budget` of them. */
  function Peel<S, E>(reader: Reader<S, E>, mail: Bytes, outer: Outermost, budget: nat): seq<Report<S, E>>
    decreases budget
  {
    if budget == 0 then []
    else
      var r := reader.layer(mail, outer);
      match reader.Inner(r)
      case None => [r]
      case Some(inner) => [r] + Peel(reader, inner, outer, budget - 1)
  }

  /** All layers that are read: those inside the outermost one see its From and Date. */
  function Reports<S, E>(reader: Reader<S, E>, mail: Bytes): (rs: seq<Report<S, E>>)
    ensures rs != []
  {
    var r := reader.layer(mail, NOTHING_OUTSIDE);
    match reader.Inner(r)
    case None => [r]
    case Some(inner) => [r] + Peel(reader, inner, OutermostOf(r.sender), MAX_DECRYPT_DEPTH - 1)
  }

  function AllSigners<S, E>(rs: seq<Report<S, E>>): seq<S> {
    if rs == [] then [] else rs[0].signers + AllSigners(rs[1..])
  }

  function FirstEncryption<S, E>(rs: seq<Report<S, E>>): Option<E> {
    if rs == [] then None else OrElse(rs[0].encryption, FirstEncryption(rs[1..]))
  }

  /** What the caller is told about a message with these layers. */
  function Summary<S, E>(reader: Reader<S, E>, rs: seq<Report<S, E>>): Report<S, E>
    requires rs != []
  {
    var last := rs[|rs| - 1];
    if reader.Inner(last).Some? then
      Report(AllSigners(rs), [DepthExceeded], None, rs[0].sender, FirstEncryption(rs))
    else
      Report(AllSigners(rs), last.failures, last.content, FallBack(last.sender, rs[0].sender),
             OrElse(last.encryption, FirstEncryption(rs)))
  }

  lemma {:induction false} AllSignersAppend<S, E>(a: seq<Report<S, E>>, b: seq<Report<S, E>>)
    ensures AllSigners(a + b) == AllSigners(a) + AllSigners(b)
    ensures FirstEncryption(a + b) == OrElse(FirstEncryption(a), FirstEncryption(b))
  {
    if a == [] {
      assert a + b == b;
    } else {
      assert (a + b)[1..] == a[1..] + b;
      AllSignersAppend(a[1..], b);
    }
  }

  lemma PeelStep<S, E>(reader: Reader<S, E>, mail: Bytes, outer: Outermost, budget: nat)
    requires budget > 0
    ensures var r := reader.layer(mail, outer);
      Peel(reader, mail, outer, budget) ==
        [r] + (if reader.Inner(r).Some? then Peel(reader, reader.Inner(r).value, outer, budget - 1) else [])
  {
  }

  /** `decrypt_and_verify_smime_from_eml_detailed` */
  method DecryptAndVerify<S, E>(reader: Reader<S, E>, mail: Bytes) returns (result: Report<S, E>)
    ensures result == Summary(reader, Reports(reader, mail))
  {
    hide Peel, AllSigners, FirstEncryption;
    var current := mail;
    var signers: seq<S> := [];
    var encryption: Option<E> := None;
    var outer := Sender(None, None, None);
    ghost var done: seq<Report<S, E>> := [];
    ghost var all := Reports(reader, mail);
    NoReports<S, E>();
    for depth := 0 to MAX_DECRYPT_DEPTH
      invariant |done| == depth
      invariant signers == AllSigners(done)
      invariant encryption == FirstEncryption(done)
      invariant depth == 0 ==> current == mail && outer == Sender(None, None, None)
      invariant depth > 0 ==> outer == done[0].sender && reader.Inner(done[depth - 1]).Some?
      invariant depth > 0 ==> all == done + Peel(reader, current, OutermostOf(outer), MAX_DECRYPT_DEPTH - depth)
    {
      result := reader.layer(current, OutermostOf(outer));
      ghost var before := done;
      done := done + [result];
      AllSignersAppend(before, [result]);
      OneReport(result);
      if depth > 0 {
        PeelStep(reader, current, OutermostOf(outer), MAX_DECRYPT_DEPTH - depth);
      }
      if encryption.None? {
        encryption := result.encryption;
        result := result.(encryption := None);
      }
      if depth == 0 {
        outer := result.sender;
      }
      signers := signers + result.signers;
      result := result.(signers := []);
      if result.content.Some? && reader.isSmime(result.content.value) {
        current := result.content.value;
        assert all == done + Peel(reader, current, OutermostOf(outer), MAX_DECRYPT_DEPTH - (depth + 1));
        continue;
      }
      assert all == done;
      result := result.(signers := signers);
      if result.encryption.None? {
        result := result.(encryption := encryption);
      }
      return result.(sender := FallBack(result.sender, outer));
    }
    PeelNothing(reader, current, OutermostOf(outer));
    assert done + [] == done;
    return Report(signers, [DepthExceeded], None, outer, encryption);
  }

  lemma NoReports<S, E>()
    ensures AllSigners<S, E>([]) == [] && FirstEncryption<S, E>([]) == None
  {
  }

  lemma OneReport<S, E>(r: Report<S, E>)
    ensures AllSigners([r]) == r.signers && FirstEncryption([r]) == r.encryption
  {
    assert [r][1..] == [];
  }

  lemma {:induction false} PeelNothing<S, E>(reader: Reader<S, E>, mail: Bytes, outer: Outermost)
    ensures Peel(reader, mail, outer, 0) == []
  {
  }

  // ---------- What holds of every message ----------

  /** What a layer inside sees of this sender: the address with the name, if there is an address, and the date. */
  ghost predicate Sees(outer: Outermost, s: Sender) {
    && outer.date == s.date
    && (s.address.None? ==> outer.from.None?)
    && (s.address.Some? ==> outer.from == Some((s.address.value, s.comment)))
  }

  /** The layer `next` reads what the layer reported as `r` holds, and sees the sender of the outermost one. */
  ghost predicate Follows<S, E>(reader: Reader<S, E>, first: Sender, r: Report<S, E>, next: Report<S, E>) {
    && r.content.Some? && reader.isSmime(r.content.value)
    && exists outer :: Sees(outer, first) && next == reader.layer(r.content.value, outer)
  }

  /** rs are the layers of the message: each reads what the one around it holds, all know the outermost sender. */
  ghost predicate Nested<S, E>(reader: Reader<S, E>, mail: Bytes, rs: seq<Report<S, E>>) {
    && 1 <= |rs| <= 4
    && rs[0] == reader.layer(mail, Outermost(None, None))
    && (forall j, k :: 0 <= j < |rs| && k == j + 1 < |rs| ==> Follows(reader, rs[0].sender, rs[j], rs[k]))
    && (|rs| < 4 ==> !(rs[|rs| - 1].content.Some? && reader.isSmime(rs[|rs| - 1].content.value)))
  }

  lemma {:induction false} PeelNested<S, E>(reader: Reader<S, E>, mail: Bytes, outer: Outermost, budget: nat)
    ensures var rs := Peel(reader, mail, outer, budget);
      && |rs| <= budget && (budget > 0 ==> rs != [] && rs[0] == reader.layer(mail, outer))
      && (forall j, k, s :: 0 <= j < |rs| && k == j + 1 < |rs| && Sees(outer, s) ==> Follows(reader, s, rs[j], rs[k]))
      && (0 < |rs| < budget ==> reader.Inner(rs[|rs| - 1]).None?)
    decreases budget
  {
    hide Peel;
    PeelNothing(reader, mail, outer);
    if budget > 0 {
      PeelStep(reader, mail, outer, budget);
      var r := reader.layer(mail, outer);
      if reader.Inner(r).Some? {
        PeelNested(reader, reader.Inner(r).value, outer, budget - 1);
      }
    }
  }

  lemma ReportsNested<S, E>(reader: Reader<S, E>, mail: Bytes)
    ensures Nested(reader, mail, Reports(reader, mail))
  {
    hide Peel;
    var r := reader.layer(mail, NOTHING_OUTSIDE);
    if reader.Inner(r).Some? {
      PeelNested(reader, reader.Inner(r).value, OutermostOf(r.sender), MAX_DECRYPT_DEPTH - 1);
      assert Sees(OutermostOf(r.sender), r.sender);
    }
  }

  /** The layers are determined by what they are. */
  lemma {:induction false} NestedUnique<S, E>(reader: Reader<S, E>, mail: Bytes, a: seq<Report<S, E>>, b: seq<Report<S, E>>, k: nat)
    requires Nested(reader, mail, a) && Nested(reader, mail, b) && k < |a|
    decreases k
    ensures k < |b| && a[k] == b[k]
  {
    if k > 0 {
      NestedUnique(reader, mail, a, b, k - 1);
      NestedUnique(reader, mail, a, b, 0);
      assert Follows(reader, a[0].sender, a[k - 1], a[k]);
      assert k < |b| ==> Follows(reader, b[0].sender, b[k - 1], b[k]);
    }
  }

  lemma NestedNotEmpty<S, E>(reader: Reader<S, E>, mail: Bytes, rs: seq<Report<S, E>>)
    requires Nested(reader, mail, rs)
    ensures rs != []
  {
  }

  lemma ReportsAreTheLayers<S, E>(reader: Reader<S, E>, mail: Bytes, rs: seq<Report<S, E>>)
    ensures Nested(reader, mail, rs) <==> rs == Reports(reader, mail)
  {
    hide Nested;
    var all := Reports(reader, mail);
    ReportsNested(reader, mail);
    if Nested(reader, mail, rs) {
      NestedNotEmpty(reader, mail, rs);
      NestedUnique(reader, mail, all, rs, |all| - 1);
      NestedUnique(reader, mail, rs, all, |rs| - 1);
      forall k | 0 <= k < |rs| ensures rs[k] == all[k] {
        NestedUnique(reader, mail, rs, all, k);
      }
    }
  }

  function Places<S, E>(rs: seq<Report<S, E>>, k: nat): nat
    requires k <= |rs|
  {
    if k == 0 then 0 else Places(rs, k - 1) + |rs[k - 1].signers|
  }

  /** The signers of layer k stand behind those of the layers around it. */
  lemma {:induction false} SignersOutermostFirst<S, E>(rs: seq<Report<S, E>>, k: nat)
    requires k < |rs|
    ensures var at := Places(rs, k);
      at + |rs[k].signers| <= |AllSigners(rs)| && AllSigners(rs)[at..at + |rs[k].signers|] == rs[k].signers
  {
    hide *;
    PlacesAre(rs, k);
    assert rs == rs[..k] + ([rs[k]] + rs[k + 1..]);
    AllSignersAppend(rs[..k], [rs[k]] + rs[k + 1..]);
    AllSignersAppend([rs[k]], rs[k + 1..]);
    OneReport(rs[k]);
    Slice(AllSigners(rs[..k]), rs[k].signers, AllSigners(rs[k + 1..]));
  }

  lemma Slice<T>(a: seq<T>, b: seq<T>, c: seq<T>)
    ensures (a + (b + c))[|a|..|a| + |b|] == b
  {
  }

  lemma {:induction false} PlacesAre<S, E>(rs: seq<Report<S, E>>, k: nat)
    requires k <= |rs|
    ensures |AllSigners(rs[..k])| == Places(rs, k)
  {
    if k > 0 {
      PlacesAre(rs, k - 1);
      assert rs[..k] == rs[..k - 1] + [rs[k - 1]];
      AllSignersAppend(rs[..k - 1], [rs[k - 1]]);
      OneReport(rs[k - 1]);
    }
  }

  /**
   * A fifth layer: no content, one failure, and still all signers and the outermost sender.
   * Otherwise the innermost layer's content, which is not S/MIME again, and its failures only.
   */
  lemma DepthIsBounded<S, E>(reader: Reader<S, E>, mail: Bytes)
    ensures var rs := Reports(reader, mail);
      var s := Summary(reader, rs);
      && |rs| <= 4 && s.signers == AllSigners(rs)
      && (s.content.Some? ==> !reader.isSmime(s.content.value) && s.content == rs[|rs| - 1].content)
      && (reader.Inner(rs[|rs| - 1]).Some? ==> (
            |rs| == 4 && s.content == None && s.failures == [DepthExceeded] && s.sender == rs[0].sender))
  {
    hide Reports;
    ReportsNested(reader, mail);
  }

  /** This is shown of the innermost layer's field if it has one, and of the outermost layer's otherwise. */
  ghost predicate InnerOrOuter<T>(inner: Option<T>, outer: Option<T>, shown: Option<T>) {
    (inner.Some? ==> shown == inner) && (inner.None? ==> shown == outer)
  }

  /** Address, name and date each come from the innermost layer, or where that has none from the outermost; no other counts. */
  lemma SenderShown<S, E>(reader: Reader<S, E>, mail: Bytes)
    ensures var rs := Reports(reader, mail);
      var first, last, shown := rs[0].sender, rs[|rs| - 1].sender, Summary(reader, rs).sender;
      reader.Inner(rs[|rs| - 1]).None? ==>
        && InnerOrOuter(last.address, first.address, shown.address)
        && InnerOrOuter(last.comment, first.comment, shown.comment)
        && InnerOrOuter(last.date, first.date, shown.date)
  {
    hide Reports;
  }

  /** The failures told are those of the innermost layer that was reached. */
  lemma FailuresShown<S, E>(reader: Reader<S, E>, mail: Bytes)
    ensures var rs := Reports(reader, mail);
      reader.Inner(rs[|rs| - 1]).None? ==>
        Summary(reader, rs).failures == rs[|rs| - 1].failures && Summary(reader, rs).content == rs[|rs| - 1].content
  {
    hide Reports;
  }

  lemma {:induction false} FirstEncryptionExactly<S, E>(rs: seq<Report<S, E>>)
    ensures FirstEncryption(rs).None? <==> forall k :: 0 <= k < |rs| ==> rs[k].encryption.None?
    ensures forall k :: 0 <= k < |rs| && rs[k].encryption.Some? && (forall j :: 0 <= j < k ==> rs[j].encryption.None?) ==>
      FirstEncryption(rs) == rs[k].encryption
  {
    if rs != [] {
      FirstEncryptionExactly(rs[1..]);
    }
  }

  /** Layer k is the outermost encrypted one. */
  ghost predicate FirstEncrypted<S, E>(rs: seq<Report<S, E>>, k: nat)
    requires k < |rs|
  {
    rs[k].encryption.Some? && forall j :: 0 <= j < k ==> rs[j].encryption.None?
  }

  /** The innermost layer was reached and is encrypted itself. */
  predicate InnermostEncrypted<S, E>(reader: Reader<S, E>, rs: seq<Report<S, E>>)
    requires rs != []
  {
    reader.Inner(rs[|rs| - 1]).None? && rs[|rs| - 1].encryption.Some?
  }

  /**
   * The encryption told is the innermost layer's own if that layer was reached and is encrypted,
   * and otherwise the outermost encrypted layer's; so it is the latter's exactly when the two agree or the
   * innermost has none.
   */
  lemma EncryptionReported<S, E>(reader: Reader<S, E>, mail: Bytes)
    ensures var rs := Reports(reader, mail);
      var e := Summary(reader, rs).encryption;
      && e == (if InnermostEncrypted(reader, rs) then rs[|rs| - 1].encryption else FirstEncryption(rs))
      && (e.None? <==> forall k :: 0 <= k < |rs| ==> rs[k].encryption.None?)
      && (forall k :: 0 <= k < |rs| && FirstEncrypted(rs, k) ==>
            (e == rs[k].encryption <==> InnermostEncrypted(reader, rs) ==> rs[|rs| - 1].encryption == rs[k].encryption))
  {
    hide Reports;
    FirstEncryptionExactly(Reports(reader, mail));
  }

  const NOBODY := Sender(None, None, None)

  function Envelope(inside: byte, cipher: string): Report<int, string> { Report([], [], Some([inside]), NOBODY, Some(cipher)) }

  /** Mail [1] is an envelope around mail [2], which is an envelope around plain content. */
  function TwoEnvelopes(outer: string, inner: string): Reader<int, string> {
    Reader((mail, _) => if mail == [1] then Envelope(2, outer) else Envelope(3, inner), content => content == [2])
  }

  /** One envelope in another: the report names the inner one's encryption, not the first. */
  lemma InnerEnvelopeTold(outer: string, inner: string)
    ensures var reader := TwoEnvelopes(outer, inner);
      var rs := Reports(reader, [1]);
      FirstEncryption(rs) == Some(outer) && Summary(reader, rs).encryption == Some(inner)
  {
    var reader := TwoEnvelopes(outer, inner);
    PeelStep(reader, [2], OutermostOf(NOBODY), MAX_DECRYPT_DEPTH - 1);
    assert reader.Inner(Envelope(3, inner)) == None by { assert [3 as byte][0] != [2 as byte][0]; }
    assert Reports(reader, [1]) == [Envelope(2, outer)] + [Envelope(3, inner)];
  }
}
