/** The answer merger of `route` (dns_reverse_proxy.go:144-158): the first
    non-nil backend response becomes the base message, and each later
    response contributes, in order, the answer records whose deduplication
    key (`key`, the record's rendered data field) has not been collected yet. */
module Answers {
  import opened Wrappers
  import opened Dns

  /** The keys of a run of records. */
  function Keys(rrs: seq<RR>, key: RR -> string): set<string> {
    set r | r in rrs :: key(r)
  }

  /** No two records share a key. */
  predicate Distinct(rrs: seq<RR>, key: RR -> string) {
    forall i, j :: 0 <= i < j < |rrs| ==> key(rrs[i]) != key(rrs[j])
  }

  lemma KeysAppend(a: seq<RR>, b: seq<RR>, key: RR -> string)
    ensures Keys(a + b, key) == Keys(a, key) + Keys(b, key)
  {
    assert forall r :: r in a + b <==> r in a || r in b;
  }

  /** The records of `more` that are appended when the keys in `seen` are
      already collected: in order, each record whose key is neither in `seen`
      nor on an earlier record of `more`. */
  function Unseen(more: seq<RR>, seen: set<string>, key: RR -> string): (r: seq<RR>)
    ensures forall i :: 0 <= i < |r| ==> key(r[i]) !in seen
    ensures Distinct(r, key)
    ensures seen + Keys(r, key) == seen + Keys(more, key)
    ensures forall i :: 0 <= i < |r| ==> r[i] in more
    decreases |more|
  {
    if more == [] then []
    else
      var init, last := more[..|more| - 1], more[|more| - 1];
      var prior := Unseen(init, seen, key);
      assert more == init + [last];
      KeysAppend(init, [last], key);
      if key(last) in seen + Keys(init, key) then prior
      else
        KeysAppend(prior, [last], key);
        DistinctSnoc(prior, last, key);
        assert forall i :: 0 <= i < |prior| ==> prior[i] in init;
        prior + [last]
  }

  /** A record whose key is new keeps a distinct run distinct. */
  lemma DistinctSnoc(rrs: seq<RR>, last: RR, key: RR -> string)
    requires Distinct(rrs, key) && key(last) !in Keys(rrs, key)
    ensures Distinct(rrs + [last], key)
  {
    var r := rrs + [last];
    forall i, j | 0 <= i < j < |r| ensures key(r[i]) != key(r[j]) {
      if j == |rrs| {
        assert r[i] == rrs[i] && r[i] in rrs;
      } else {
        assert r[i] == rrs[i] && r[j] == rrs[j];
      }
    }
  }

  /** In a distinct run, each record's key is not among the keys before it. */
  lemma DistinctFresh(rrs: seq<RR>, m: nat, key: RR -> string)
    requires Distinct(rrs, key) && m < |rrs|
    ensures key(rrs[m]) !in Keys(rrs[..m], key)
  {
    forall r | r in rrs[..m] ensures key(r) != key(rrs[m]) {
      var j :| 0 <= j < m && rrs[..m][j] == r;
      assert rrs[j] == r;
    }
  }

  /** Nothing is appended from a response whose keys are all collected. */
  lemma {:induction false} UnseenAllSeen(more: seq<RR>, seen: set<string>, key: RR -> string)
    requires Keys(more, key) <= seen
    ensures Unseen(more, seen, key) == []
  {
    var r := Unseen(more, seen, key);
    assert Keys(r, key) == {};
    DistinctCard(r, key);
  }

  /** A record is appended exactly when its key was not seen before it: the
      appended run grows by `more[i]` iff its key is outside `seen` and the
      keys of `more[..i]`. */
  lemma UnseenStep(more: seq<RR>, seen: set<string>, key: RR -> string, i: nat)
    requires i < |more|
    ensures Unseen(more[..i + 1], seen, key) ==
      Unseen(more[..i], seen, key) + (if key(more[i]) in seen + Keys(more[..i], key) then [] else [more[i]])
    ensures Keys(more[..i + 1], key) == Keys(more[..i], key) + {key(more[i])}
  {
    assert more[..i + 1][..i] == more[..i];
    assert more[..i + 1] == more[..i] + [more[i]];
    KeysAppend(more[..i], [more[i]], key);
  }

  /** Dropping the last record keeps the keys distinct, and the last key
      is not among the others. */
  lemma DistinctInit(rrs: seq<RR>, key: RR -> string)
    requires rrs != [] && Distinct(rrs, key)
    ensures Distinct(rrs[..|rrs| - 1], key)
    ensures key(rrs[|rrs| - 1]) !in Keys(rrs[..|rrs| - 1], key)
  {
    var init, last := rrs[..|rrs| - 1], rrs[|rrs| - 1];
    assert forall j :: 0 <= j < |init| ==> init[j] == rrs[j];
    forall r | r in init ensures key(r) != key(last) {
      var j :| 0 <= j < |init| && init[j] == r;
    }
  }

  lemma KeysLast(rrs: seq<RR>, key: RR -> string)
    requires rrs != []
    ensures Keys(rrs, key) == Keys(rrs[..|rrs| - 1], key) + {key(rrs[|rrs| - 1])}
  {
    assert rrs == rrs[..|rrs| - 1] + [rrs[|rrs| - 1]];
    KeysAppend(rrs[..|rrs| - 1], [rrs[|rrs| - 1]], key);
  }

  /** A run of records with distinct keys has as many keys as records. */
  lemma {:induction false} DistinctCard(rrs: seq<RR>, key: RR -> string)
    requires Distinct(rrs, key)
    ensures |Keys(rrs, key)| == |rrs|
  {
    if rrs != [] {
      DistinctInit(rrs, key);
      DistinctCard(rrs[..|rrs| - 1], key);
      KeysLast(rrs, key);
    }
  }

  /** The merger's state after some responses: the message being built
      (`finishResp`) and the keys collected so far (`collectedAddrs`). */
  datatype State = State(finish: Option<Msg>, collected: set<string>)

  /** One response folded into the state (dns_reverse_proxy.go:144-160). */
  function Step(st: State, resp: Option<Msg>, key: RR -> string): (s: State)
    // there is a message once some response was non-nil
    ensures s.finish.None? <==> st.finish.None? && resp.None?
    // the first non-nil response becomes the message as it is
    ensures st.finish.None? && resp.Some? ==> s.finish == resp
    // a later response only appends answers: the earlier ones stay as a
    // prefix and every other field is unchanged
    ensures st.finish.Some? ==> var f, g := st.finish.value, s.finish.value;
      && |f.answer| <= |g.answer| && g.answer[..|f.answer|] == f.answer
      && g.(answer := f.answer) == f
  {
    match resp
    case None => st
    case Some(m) =>
      if st.finish.None? then State(Some(m), Keys(m.answer, key))
      else
        var f := st.finish.value;
        State(Some(f.(answer := f.answer + Unseen(m.answer, st.collected, key))), st.collected + Keys(m.answer, key))
  }

  /** The state after the responses, in order; the collected keys are always
      exactly the keys of the message being built. */
  function MergeAll(resps: seq<Option<Msg>>, key: RR -> string): (st: State)
    ensures st.finish.None? ==> st.collected == {}
    ensures st.finish.Some? ==> st.collected == Keys(st.finish.value.answer, key)
  {
    if resps == [] then State(None, {})
    else
      var prior := MergeAll(resps[..|resps| - 1], key);
      var last := resps[|resps| - 1];
      if last.Some? && prior.finish.Some? then
        var f := prior.finish.value;
        KeysAppend(f.answer, Unseen(last.value.answer, prior.collected, key), key);
        Step(prior, last, key)
      else Step(prior, last, key)
  }

  /** The merged message (`finishResp`), or nil when every response was nil. */
  function Merge(resps: seq<Option<Msg>>, key: RR -> string): (m: Option<Msg>)
    // the merged answers carry exactly the keys of all non-nil responses
    ensures m.Some? ==> Keys(m.value.answer, key) == AllKeys(resps, key)
  {
    MergeCollectsAll(resps, key);
    MergeAll(resps, key).finish
  }

  /** The union of the answer keys of all non-nil responses. */
  function AllKeys(resps: seq<Option<Msg>>, key: RR -> string): set<string> {
    if resps == [] then {}
    else
      AllKeys(resps[..|resps| - 1], key) +
      (match resps[|resps| - 1] case None => {} case Some(m) => Keys(m.answer, key))
  }

  lemma MergeAllLast(resps: seq<Option<Msg>>, x: Option<Msg>, key: RR -> string)
    ensures MergeAll(resps + [x], key) == Step(MergeAll(resps, key), x, key)
    ensures AllKeys(resps + [x], key) ==
      AllKeys(resps, key) + (match x case None => {} case Some(m) => Keys(m.answer, key))
  {
    assert (resps + [x])[..|resps|] == resps;
  }

  /** The result is nil exactly when every response is nil. */
  lemma {:induction false} MergeNoneIff(resps: seq<Option<Msg>>, key: RR -> string)
    ensures Merge(resps, key).None? <==> forall i :: 0 <= i < |resps| ==> resps[i].None?
  {
    if resps != [] {
      var init := resps[..|resps| - 1];
      MergeNoneIff(init, key);
      assert resps == init + [resps[|resps| - 1]];
      MergeAllLast(init, resps[|resps| - 1], key);
      assert forall i :: 0 <= i < |init| ==> init[i] == resps[i];
    }
  }

  /** With `base` the first non-nil response, the merged message is `base`
      with records appended to its answers: its answers start with `base`'s
      answers, unchanged and in order, and every other field is `base`'s. */
  lemma {:induction false} MergeKeepsBase(resps: seq<Option<Msg>>, i: nat, key: RR -> string)
    requires i < |resps| && resps[i].Some?
    requires forall j :: 0 <= j < i ==> resps[j].None?
    ensures Merge(resps, key).Some?
    ensures var m, base := Merge(resps, key).value, resps[i].value;
      && |base.answer| <= |m.answer|
      && m.answer[..|base.answer|] == base.answer
      && m.(answer := base.answer) == base
  {
    var n := |resps| - 1;
    var init := resps[..n];
    assert resps == init + [resps[n]];
    MergeAllLast(init, resps[n], key);
    if i == n {
      MergeNoneIff(init, key);
      assert forall j :: 0 <= j < |init| ==> init[j] == resps[j];
    } else {
      assert init[i] == resps[i];
      assert forall j :: 0 <= j < i ==> init[j] == resps[j];
      MergeKeepsBase(init, i, key);
    }
  }

  /** Appending the unseen records of `more` to `a` adds only keys that occur
      nowhere before them. */
  lemma AppendUnseenFresh(a: seq<RR>, more: seq<RR>, key: RR -> string, k: nat)
    requires |a| <= k < |a + Unseen(more, Keys(a, key), key)|
    ensures var c := a + Unseen(more, Keys(a, key), key);
      key(c[k]) !in Keys(c[..k], key)
  {
    var u := Unseen(more, Keys(a, key), key);
    var c, m := a + u, k - |a|;
    assert key(u[m]) !in Keys(a, key);
    DistinctFresh(u, m, key);
    assert Keys(c[..k], key) == Keys(a, key) + Keys(u[..m], key) by {
      assert c[..k] == a + u[..m];
      KeysAppend(a, u[..m], key);
    }
    assert c[k] == u[m];
  }

  /** Every record after the base's answers has a key that differs from the
      keys of all records before it. */
  lemma {:induction false} MergeAppendsFresh(resps: seq<Option<Msg>>, i: nat, key: RR -> string, k: nat)
    requires i < |resps| && resps[i].Some?
    requires forall j :: 0 <= j < i ==> resps[j].None?
    requires Merge(resps, key).Some?
    requires |resps[i].value.answer| <= k < |Merge(resps, key).value.answer|
    ensures var a := Merge(resps, key).value.answer;
      key(a[k]) !in Keys(a[..k], key)
  {
    var n := |resps| - 1;
    var init := resps[..n];
    assert resps == init + [resps[n]];
    MergeAllLast(init, resps[n], key);
    if i == n {
      MergeNoneIff(init, key);
      assert false;
    } else {
      assert init[i] == resps[i];
      assert forall j :: 0 <= j < i ==> init[j] == resps[j];
      MergeKeepsBase(init, i, key);
      var prior := MergeAll(init, key);
      var f := prior.finish.value;
      if resps[n].Some? {
        var c := f.answer + Unseen(resps[n].value.answer, prior.collected, key);
        assert Merge(resps, key).value.answer == c;
        if k < |f.answer| {
          MergeAppendsFresh(init, i, key, k);
          assert c[..k] == f.answer[..k];
        } else {
          AppendUnseenFresh(f.answer, resps[n].value.answer, key, k);
        }
      } else {
        MergeAppendsFresh(init, i, key, k);
      }
    }
  }

  /** The keys collected are the keys of every non-nil response. */
  lemma {:induction false} MergeCollectsAll(resps: seq<Option<Msg>>, key: RR -> string)
    ensures MergeAll(resps, key).collected == AllKeys(resps, key)
  {
    if resps != [] {
      var init := resps[..|resps| - 1];
      assert resps == init + [resps[|resps| - 1]];
      MergeAllLast(init, resps[|resps| - 1], key);
      MergeCollectsAll(init, key);
    }
  }

  lemma {:induction false} AllKeysContains(resps: seq<Option<Msg>>, j: nat, key: RR -> string)
    requires j < |resps| && resps[j].Some?
    ensures Keys(resps[j].value.answer, key) <= AllKeys(resps, key)
  {
    var init := resps[..|resps| - 1];
    assert resps == init + [resps[|resps| - 1]];
    MergeAllLast(init, resps[|resps| - 1], key);
    if j < |init| {
      assert init[j] == resps[j];
      AllKeysContains(init, j, key);
    }
  }

  /** Merging one more response whose keys are all collected already changes
      nothing. */
  lemma MergeAbsorbs(resps: seq<Option<Msg>>, m: Msg, key: RR -> string)
    requires Merge(resps, key).Some?
    requires Keys(m.answer, key) <= Keys(Merge(resps, key).value.answer, key)
    ensures Merge(resps + [Some(m)], key) == Merge(resps, key)
  {
    MergeAllLast(resps, Some(m), key);
    var st := MergeAll(resps, key);
    UnseenAllSeen(m.answer, st.collected, key);
    var f := st.finish.value;
    assert f.answer + [] == f.answer;
  }

  /** Merging the merged message again is a no-op, and so is merging any of
      the responses a second time. */
  lemma MergeIdempotent(resps: seq<Option<Msg>>, key: RR -> string)
    requires Merge(resps, key).Some?
    ensures Merge(resps + [Merge(resps, key)], key) == Merge(resps, key)
    ensures forall j :: 0 <= j < |resps| && resps[j].Some? ==> Merge(resps + [resps[j]], key) == Merge(resps, key)
  {
    MergeAbsorbs(resps, Merge(resps, key).value, key);
    forall j | 0 <= j < |resps| && resps[j].Some?
      ensures Merge(resps + [resps[j]], key) == Merge(resps, key)
    {
      MergeCollectsAll(resps, key);
      AllKeysContains(resps, j, key);
      MergeAbsorbs(resps, resps[j].value, key);
    }
  }

  /** When the base's own answers have distinct keys, the merged answers have
      distinct keys, cover every key of every response, and so number exactly
      the distinct keys across all responses. */
  lemma MergeCount(resps: seq<Option<Msg>>, i: nat, key: RR -> string)
    requires i < |resps| && resps[i].Some?
    requires forall j :: 0 <= j < i ==> resps[j].None?
    requires Distinct(resps[i].value.answer, key)
    ensures Merge(resps, key).Some?
    ensures Distinct(Merge(resps, key).value.answer, key)
    ensures Keys(Merge(resps, key).value.answer, key) == AllKeys(resps, key)
    ensures |Merge(resps, key).value.answer| == |AllKeys(resps, key)|
  {
    MergeKeepsBase(resps, i, key);
    MergeCollectsAll(resps, key);
    var a, b := Merge(resps, key).value.answer, resps[i].value.answer;
    forall p, q | 0 <= p < q < |a| ensures key(a[p]) != key(a[q]) {
      if q < |b| {
        assert a[p] == b[p] && a[q] == b[q];
      } else {
        MergeAppendsFresh(resps, i, key, q);
        assert a[p] in a[..q];
      }
    }
    DistinctCard(a, key);
  }

  /** A record whose key occurs nowhere before it differs in key from the
      records of a prefix `b` and from those between `b` and itself. */
  lemma FreshAfterPrefix(a: seq<RR>, b: seq<RR>, key: RR -> string, k: nat)
    requires |b| <= k < |a| && a[..|b|] == b
    requires key(a[k]) !in Keys(a[..k], key)
    ensures key(a[k]) !in Keys(b, key)
    ensures forall p :: |b| <= p < k ==> key(a[p]) != key(a[k])
  {
    assert a[..k] == b + a[|b|..k] by {
      assert a[..k] == a[..|b|] + a[|b|..k];
    }
    KeysAppend(b, a[|b|..k], key);
    forall p | |b| <= p < k ensures key(a[p]) != key(a[k]) {
      assert a[p] in a[..k];
    }
  }

  /** The record at position `k` after the base's answers has a key that is
      neither a key of the base nor the key of any record between them. */
  lemma MergeTailAt(resps: seq<Option<Msg>>, i: nat, key: RR -> string, k: nat)
    requires i < |resps| && resps[i].Some?
    requires forall j :: 0 <= j < i ==> resps[j].None?
    requires Merge(resps, key).Some?
    requires |resps[i].value.answer| <= k < |Merge(resps, key).value.answer|
    ensures var a, b := Merge(resps, key).value.answer, resps[i].value.answer;
      && key(a[k]) !in Keys(b, key)
      && forall p :: |b| <= p < k ==> key(a[p]) != key(a[k])
  {
    MergeKeepsBase(resps, i, key);
    MergeAppendsFresh(resps, i, key, k);
    FreshAfterPrefix(Merge(resps, key).value.answer, resps[i].value.answer, key, k);
  }

  /** The records appended after the base's answers have distinct keys, none
      of which is a key of the base's answers. */
  lemma MergeTail(resps: seq<Option<Msg>>, i: nat, key: RR -> string)
    requires i < |resps| && resps[i].Some?
    requires forall j :: 0 <= j < i ==> resps[j].None?
    ensures Merge(resps, key).Some?
    ensures var a, b := Merge(resps, key).value.answer, resps[i].value.answer;
      && |b| <= |a| && a == b + a[|b|..]
      && Distinct(a[|b|..], key)
      && Keys(a[|b|..], key) !! Keys(b, key)
  {
    MergeKeepsBase(resps, i, key);
    var a, b := Merge(resps, key).value.answer, resps[i].value.answer;
    var t := a[|b|..];
    assert a == b + t;
    forall q | 0 <= q < |t| ensures key(t[q]) !in Keys(b, key) {
      MergeTailAt(resps, i, key, |b| + q);
    }
    forall p, q | 0 <= p < q < |t| ensures key(t[p]) != key(t[q]) {
      MergeTailAt(resps, i, key, |b| + q);
    }
  }

  /** For any base, the merged answers number the base's answers plus one
      record per key that some response has and the base lacks. */
  lemma MergeSize(resps: seq<Option<Msg>>, i: nat, key: RR -> string)
    requires i < |resps| && resps[i].Some?
    requires forall j :: 0 <= j < i ==> resps[j].None?
    ensures Merge(resps, key).Some?
    ensures Keys(Merge(resps, key).value.answer, key) == AllKeys(resps, key)
    ensures var b := resps[i].value.answer;
      |Merge(resps, key).value.answer| == |b| + |AllKeys(resps, key) - Keys(b, key)|
  {
    MergeTail(resps, i, key);
    MergeCollectsAll(resps, key);
    var a, b := Merge(resps, key).value.answer, resps[i].value.answer;
    var t := a[|b|..];
    KeysAppend(b, t, key);
    assert Keys(t, key) == AllKeys(resps, key) - Keys(b, key);
    DistinctCard(t, key);
  }

  /** The merged answers have distinct keys exactly when the base's answers
      do: records of the base that share a key are never removed. */
  lemma MergeDistinctIff(resps: seq<Option<Msg>>, i: nat, key: RR -> string)
    requires i < |resps| && resps[i].Some?
    requires forall j :: 0 <= j < i ==> resps[j].None?
    ensures Merge(resps, key).Some?
    ensures Distinct(Merge(resps, key).value.answer, key) <==> Distinct(resps[i].value.answer, key)
  {
    MergeKeepsBase(resps, i, key);
    var a, b := Merge(resps, key).value.answer, resps[i].value.answer;
    if Distinct(b, key) {
      MergeCount(resps, i, key);
    } else {
      var p, q :| 0 <= p < q < |b| && key(b[p]) == key(b[q]);
      assert a[p] == b[p] && a[q] == b[q];
    }
  }

  /** The keys of the base response (dns_reverse_proxy.go:147-150). */
  method CollectKeys(rrs: seq<RR>, key: RR -> string) returns (collected: set<string>)
    ensures collected == Keys(rrs, key)
  {
    collected := {};
    for i := 0 to |rrs|
      invariant collected == Keys(rrs[..i], key)
    {
      assert rrs[..i + 1] == rrs[..i] + [rrs[i]];
      KeysAppend(rrs[..i], [rrs[i]], key);
      collected := collected + {key(rrs[i])};
    }
    assert rrs[..|rrs|] == rrs;
  }

  /** The dedup loop for a later response (dns_reverse_proxy.go:152-158):
      appends each record whose key is new and records the key. */
  method AppendUnseen(answer: seq<RR>, collected: set<string>, more: seq<RR>, key: RR -> string)
    returns (answer': seq<RR>, collected': set<string>)
    ensures answer' == answer + Unseen(more, collected, key)
    ensures collected' == collected + Keys(more, key)
  {
    answer', collected' := answer, collected;
    for i := 0 to |more|
      invariant answer' == answer + Unseen(more[..i], collected, key)
      invariant collected' == collected + Keys(more[..i], key)
    {
      var d := more[i];
      var find := key(d);
      UnseenStep(more, collected, key, i);
      if find !in collected' {
        answer' := answer' + [d];
      }
      collected' := collected' + {find};
    }
    assert more[..|more|] == more;
  }

  /** One non-nil response folded into the message being built
      (dns_reverse_proxy.go:144-159): the first becomes the base and its keys
      are collected; a later one contributes its records with unseen keys. */
  method Absorb(finish: Option<Msg>, collected: set<string>, resp: Msg, key: RR -> string)
    returns (finish': Option<Msg>, collected': set<string>)
    requires finish.Some? ==> collected == Keys(finish.value.answer, key)
    ensures State(finish', collected') == Step(State(finish, collected), Some(resp), key)
  {
    if finish.None? {
      finish' := Some(resp);
      collected' := CollectKeys(resp.answer, key);
    } else {
      var answer, c := AppendUnseen(finish.value.answer, collected, resp.answer, key);
      finish' := Some(finish.value.(answer := answer));
      collected' := c;
    }
  }
}
