/**
 The certificate cache (src/ca.rs:29-34, 132-170).

 `forge_certificate` looks under a read lock, generates without a lock, and inserts under
 a write lock. With many callers the three parts interleave; each part is one step here.
 */
module CertCache {
  import opened Wrappers

  import ByteText
  import Utf8

  type Host = ByteText.Text

  /** A name that a certificate can hold: ASCII text. */
  predicate IsDnsName(host: Host) {
    forall i :: 0 <= i < |host| ==> host[i] < 128
  }

  /** So a name whose UTF-8 has one byte for each character. */
  lemma {:induction false} DnsNameIff(host: Host)
    ensures IsDnsName(host) <==> |Utf8.Encode(host)| == |host|
  {
    hide Utf8.EncodeRune;
    if host != [] {
      EncodedLength(host);
      OneByteIff(host[0]);
      DnsNameIff(host[1..]);
      EncodedLength(host[1..]);
      assert host == [host[0]] + host[1..];
      assert IsDnsName(host) <==> host[0] < 128 && IsDnsName(host[1..]);
    }
  }

  lemma {:induction false} OneByteIff(c: ByteText.rune)
    ensures |Utf8.EncodeRune(c)| == 1 <==> c < 128
  {
  }

  lemma {:induction false} EncodedLength(host: Host)
    ensures |Utf8.Encode(host)| >= |host|
  {
    hide Utf8.EncodeRune;
    if host != [] {
      OneByteIff(host[0]);
      EncodedLength(host[1..]);
    }
  }

  /** A certificate and its key, as generated in one go. */
  datatype Pair = Pair(cert: ByteText.Bytes, key: ByteText.Bytes)

  // ── One caller at a time ─────────────────────────────────────

  /** A call that nothing interrupts. `made` is what generation would yield; for a host that
      is no DNS name, `unwrap` panics instead, and the call has no answer. */
  function Forge(cache: map<Host, Pair>, host: Host, made: Pair): (map<Host, Pair>, Option<Pair>) {
    if host in cache then (cache, Some(cache[host]))
    else if !IsDnsName(host) then (cache, None)
    else (cache[host := made], Some(made))
  }

  class CertificationAuthority {
    var certCache: map<Host, Pair>

    constructor ()
      ensures certCache == map[]
    {
      certCache := map[];
    }

    method ForgeCertificate(host: Host, made: Pair) returns (pair: Option<Pair>)
      modifies this
      ensures (certCache, pair) == Forge(old(certCache), host, made)
    {
      if host in certCache {
        return Some(certCache[host]);
      }
      if !IsDnsName(host) {
        return None;
      }
      certCache := certCache[host := made];
      return Some(made);
    }
  }

  /** A call and what generation yields if it comes to that. */
  datatype Request = Request(host: Host, made: Pair)

  function ForgeAll(cache: map<Host, Pair>, requests: seq<Request>): seq<Option<Pair>>
    decreases |requests|
  {
    if requests == [] then []
    else
      var (next, pair) := Forge(cache, requests[0].host, requests[0].made);
      [pair] + ForgeAll(next, requests[1..])
  }

  /** The first request for a host. */
  function FirstFor(requests: seq<Request>, host: Host): (i: nat)
    ensures i <= |requests|
    ensures i < |requests| ==> requests[i].host == host
    ensures forall j :: 0 <= j < i ==> requests[j].host != host
  {
    if requests == [] || requests[0].host == host then 0 else 1 + FirstFor(requests[1..], host)
  }

  /** Calls one after another: each is answered from the cache it started with, or else with
      what the first call for that host generated, or not at all when the host is no DNS
      name. */
  lemma {:induction false} SequentialCallsMemoise(cache: map<Host, Pair>, requests: seq<Request>, k: nat)
    requires k < |requests|
    ensures |ForgeAll(cache, requests)| == |requests|
    ensures var host := requests[k].host;
            && FirstFor(requests, host) <= k
            && ForgeAll(cache, requests)[k]
               == if host in cache then Some(cache[host])
                  else if IsDnsName(host) then Some(requests[FirstFor(requests, host)].made)
                  else None
    decreases |requests|
  {
    hide IsDnsName;
    var (next, pair) := Forge(cache, requests[0].host, requests[0].made);
    var rest := requests[1..];
    if rest != [] {
      SequentialCallsMemoise(next, rest, if k > 0 then k - 1 else 0);
    }
    if k > 0 {
      assert rest[k - 1] == requests[k];
      assert ForgeAll(cache, requests)[k] == ForgeAll(next, rest)[k - 1];
    }
  }

  // ── Callers that interleave ──────────────────────────────────

  type Caller = nat

  /** Where a caller is; callers that are nowhere have no call in progress. */
  datatype Phase =
    | Missed(host: Host)               // looked, and found nothing
    | Holding(host: Host, pair: Pair)  // generated, and not yet inserted

  datatype Answer = Answer(host: Host, pair: Pair)

  datatype State = State(
    cache: map<Host, Pair>,
    phases: map<Caller, Phase>,
    generated: set<Answer>,   // every pair ever generated, with its host
    answers: seq<Answer>)     // every answer given, in order

  datatype Action =
    | Look(caller: Caller, host: Host)
    | Generate(caller: Caller, made: Pair)
    | Insert(caller: Caller)

  /** An action that its caller cannot take changes nothing. */
  function Step(s: State, a: Action): State {
    match a
    case Look(c, host) =>
      if c in s.phases then s
      else if host in s.cache then s.(answers := s.answers + [Answer(host, s.cache[host])])
      else s.(phases := s.phases[c := Missed(host)])
    case Generate(c, made) =>
      if c !in s.phases || !s.phases[c].Missed? then s
      else
        var host := s.phases[c].host;
        if !IsDnsName(host) then s.(phases := s.phases - {c})
        else s.(phases := s.phases[c := Holding(host, made)], generated := s.generated + {Answer(host, made)})
    case Insert(c) =>
      if c !in s.phases || !s.phases[c].Holding? then s
      else
        var Holding(host, pair) := s.phases[c];
        s.(cache := s.cache[host := pair], phases := s.phases - {c}, answers := s.answers + [Answer(host, pair)])
  }

  function Run(s: State, actions: seq<Action>): State
    decreases |actions|
  {
    if actions == [] then s else Run(Step(s, actions[0]), actions[1..])
  }

  const INITIAL: State := State(map[], map[], {}, [])

  // ── Every pair belongs to its host ───────────────────────────

  ghost predicate Genuine(s: State) {
    && (forall h :: h in s.cache ==> Answer(h, s.cache[h]) in s.generated)
    && (forall c :: c in s.phases && s.phases[c].Holding? ==>
          Answer(s.phases[c].host, s.phases[c].pair) in s.generated)
    && (forall a :: a in s.answers ==> a in s.generated)
  }

  lemma {:induction false} StepKeepsGenuine(s: State, a: Action)
    requires Genuine(s)
    ensures Genuine(Step(s, a)) && s.generated <= Step(s, a).generated
  {
  }

  /** In every interleaving, whatever the cache holds and whatever a caller was given for a
      host was generated, certificate and key together, for that very host. */
  lemma {:induction false} EveryPairIsGenuine(s: State, actions: seq<Action>)
    requires Genuine(s)
    ensures Genuine(Run(s, actions))
    decreases |actions|
  {
    hide Step, Genuine;
    if actions != [] {
      StepKeepsGenuine(s, actions[0]);
      EveryPairIsGenuine(Step(s, actions[0]), actions[1..]);
    }
  }

  /** The moment at which the pair was generated: its caller had missed that host. */
  ghost predicate GeneratedAt(s: State, actions: seq<Action>, a: Answer, i: nat) {
    && i < |actions| && actions[i].Generate? && actions[i].made == a.pair
    && var before := Run(s, actions[..i]).phases;
       var c := actions[i].caller;
       c in before && before[c] == Missed(a.host)
  }

  lemma {:induction false} WasGenerated(s: State, actions: seq<Action>, a: Answer) returns (i: nat)
    requires a in Run(s, actions).generated && a !in s.generated
    ensures GeneratedAt(s, actions, a, i)
    decreases |actions|
  {
    hide IsDnsName;
    var next, rest := Step(s, actions[0]), actions[1..];
    assert Run(s, actions[..0]) == s;
    if a in next.generated {
      i := 0;
    } else {
      i := WasGenerated(next, rest, a);
      i := i + 1;
      assert actions[..i][0] == actions[0] && actions[..i][1..] == rest[..i - 1];
      assert Run(s, actions[..i]) == Run(next, rest[..i - 1]);
    }
  }

  /** In every run from the empty cache, each answer and each entry was generated during the
      run, by a caller that had asked for that very host and had not found it. */
  lemma {:induction false} RunsAreGenuine(actions: seq<Action>, a: Answer) returns (i: nat)
    requires a in Run(INITIAL, actions).answers
             || (a.host in Run(INITIAL, actions).cache && Run(INITIAL, actions).cache[a.host] == a.pair)
    ensures GeneratedAt(INITIAL, actions, a, i)
  {
    hide Step, Run;
    EveryPairIsGenuine(INITIAL, actions);
    i := WasGenerated(INITIAL, actions, a);
  }

  /** A call in progress asks for one host, and only its own caller takes it further. */
  lemma {:induction false} CallGoesOn(s: State, a: Action, c: Caller)
    requires c in s.phases
    ensures var before, now := s.phases[c], Step(s, a).phases;
            if c !in now then a.caller == c && !a.Look?
            else
              || now[c] == before
              || (a == Generate(c, a.made) && before == Missed(before.host) && now[c] == Holding(before.host, a.made))
  {
  }

  /** Whatever others do in the meantime. */
  lemma {:induction false} CallIsItsOwn(s: State, actions: seq<Action>, c: Caller)
    requires c in s.phases && forall a :: a in actions ==> a.caller != c || a.Look?
    ensures c in Run(s, actions).phases && Run(s, actions).phases[c] == s.phases[c]
    decreases |actions|
  {
    hide Step;
    if actions != [] {
      assert actions[0] in actions;
      CallGoesOn(s, actions[0], c);
      CallIsItsOwn(Step(s, actions[0]), actions[1..], c);
    }
  }

  // ── When an entry is final ───────────────────────────────────

  /** A call in progress that can still insert another pair for the host. */
  predicate CanOverwrite(phase: Phase, h: Host, pair: Pair) {
    && phase.host == h
    && if phase.Missed? then IsDnsName(h) else phase.pair != pair
  }

  /** No call in progress can still overwrite the entry with another pair. */
  ghost predicate Settled(s: State, h: Host) {
    && h in s.cache
    && forall c :: c in s.phases ==> !CanOverwrite(s.phases[c], h, s.cache[h])
  }

  /** Answers for the host from some point on. */
  ghost predicate AnswersAgree(answers: seq<Answer>, from: nat, h: Host, pair: Pair) {
    forall i :: from <= i < |answers| && answers[i].host == h ==> answers[i].pair == pair
  }

  lemma {:induction false} StepKeepsSettled(s: State, a: Action, h: Host, from: nat)
    requires Settled(s, h) && AnswersAgree(s.answers, from, h, s.cache[h]) && from <= |s.answers|
    ensures var s' := Step(s, a);
            && Settled(s', h) && s'.cache[h] == s.cache[h]
            && from <= |s'.answers| && AnswersAgree(s'.answers, from, h, s.cache[h])
  {
    hide IsDnsName;
    if (a.Generate? || a.Insert?) && a.caller in s.phases {
      assert !CanOverwrite(s.phases[a.caller], h, s.cache[h]);
    }
  }

  lemma {:induction false} SettledStays(s: State, actions: seq<Action>, h: Host, from: nat)
    requires Settled(s, h) && AnswersAgree(s.answers, from, h, s.cache[h]) && from <= |s.answers|
    ensures var end := Run(s, actions);
            && Settled(end, h) && end.cache[h] == s.cache[h]
            && AnswersAgree(end.answers, from, h, s.cache[h])
    decreases |actions|
  {
    hide Step, AnswersAgree;
    if actions != [] {
      StepKeepsSettled(s, actions[0], h, from);
      SettledStays(Step(s, actions[0]), actions[1..], h, from);
    }
  }

  /** An entry is final, in every continuation of the run, exactly when no call for its host
      sits between its miss and its insert, unless it would insert the same pair or panic;
      and from then on every call for the host is answered with that entry. */
  lemma {:induction false} FinalIffSettled(s: State, h: Host)
    requires h in s.cache
    ensures (forall actions :: h in Run(s, actions).cache && Run(s, actions).cache[h] == s.cache[h])
            <==> Settled(s, h)
    ensures Settled(s, h) ==>
              forall actions :: AnswersAgree(Run(s, actions).answers, |s.answers|, h, s.cache[h])
  {
    if Settled(s, h) {
      forall actions
        ensures h in Run(s, actions).cache && Run(s, actions).cache[h] == s.cache[h]
        ensures AnswersAgree(Run(s, actions).answers, |s.answers|, h, s.cache[h])
      {
        SettledStays(s, actions, h, |s.answers|);
      }
    } else {
      var c :| c in s.phases && CanOverwrite(s.phases[c], h, s.cache[h]);
      var actions := OverwriteBy(s, h, c);
      assert Run(s, actions).cache[h] != s.cache[h];
    }
  }

  /** A call that is between miss and insert can replace the entry. */
  lemma {:induction false} OverwriteBy(s: State, h: Host, c: Caller) returns (actions: seq<Action>)
    requires h in s.cache && c in s.phases && CanOverwrite(s.phases[c], h, s.cache[h])
    ensures h in Run(s, actions).cache && Run(s, actions).cache[h] != s.cache[h]
  {
    var insert := [Insert(c)];
    assert insert[1..] == [];
    if s.phases[c].Holding? {
      actions := insert;
      assert Run(Step(s, Insert(c)), []) == Step(s, Insert(c));
    } else {
      var other := Pair(s.cache[h].cert + [0], []);
      actions := [Generate(c, other)] + insert;
      assert actions[1..] == insert;
      var s1 := Step(s, Generate(c, other));
      assert Run(Step(s1, Insert(c)), []) == Step(s1, Insert(c));
      assert |other.cert| != |s.cache[h].cert|;
    }
  }

  /** Two callers that miss together are given different pairs, and the first one's is gone
      from the cache: caching per host, as promised, holds for calls that do not overlap. */
  lemma {:induction false} OverlappingCallsDisagree(h: Host, one: Pair, two: Pair)
    requires one != two && IsDnsName(h)
    ensures var end := Run(INITIAL, [Look(1, h), Look(2, h), Generate(1, one), Generate(2, two), Insert(1), Insert(2)]);
            && end.answers == [Answer(h, one), Answer(h, two)]
            && end.cache == map[h := two]
  {
    var last := [Insert(1), Insert(2)];
    var generate := [Generate(1, one), Generate(2, two)] + last;
    var s1 := Step(INITIAL, Look(1, h));
    var s2 := Step(s1, Look(2, h));
    RunTwo(INITIAL, Look(1, h), Look(2, h), generate);
    RunTwo(s2, Generate(1, one), Generate(2, two), last);
    var s4 := Step(Step(s2, Generate(1, one)), Generate(2, two));
    RunTwo(s4, Insert(1), Insert(2), []);
    assert [Look(1, h), Look(2, h)] + generate
           == [Look(1, h), Look(2, h), Generate(1, one), Generate(2, two), Insert(1), Insert(2)];
    assert last + [] == last;
    var end := Step(Step(s4, Insert(1)), Insert(2));
    assert s4.phases == map[1 := Holding(h, one), 2 := Holding(h, two)];
    assert end.cache == map[h := two];
  }

  lemma {:induction false} RunTwo(s: State, a: Action, b: Action, rest: seq<Action>)
    ensures Run(s, [a, b] + rest) == Run(Step(Step(s, a), b), rest)
  {
    hide Step;
    var actions := [a, b] + rest;
    assert actions[1..] == [b] + rest;
    assert actions[1..][1..] == rest;
  }

  // ── A call that nothing interrupts ───────────────────────────

  /** The three steps of one call, in a row, are the sequential call. */
  lemma {:induction false} UninterruptedCall(s: State, c: Caller, host: Host, made: Pair)
    requires c !in s.phases
    ensures var end, (cache, pair) := Run(s, [Look(c, host), Generate(c, made), Insert(c)]), Forge(s.cache, host, made);
            && end.cache == cache && end.phases == s.phases
            && end.answers == s.answers + if pair.Some? then [Answer(host, pair.value)] else []
  {
    hide IsDnsName;
    var s1 := Step(s, Look(c, host));
    var s2 := Step(s1, Generate(c, made));
    var s3 := Step(s2, Insert(c));
    var last := [Insert(c)];
    RunTwo(s, Look(c, host), Generate(c, made), last);
    assert [Look(c, host), Generate(c, made)] + last == [Look(c, host), Generate(c, made), Insert(c)];
    assert Run(s2, last) == s3 by {
      assert last[1..] == [];
    }
    if host !in s.cache {
      assert s3.phases == s.phases;
    }
  }

  function OneByOne(c: Caller, requests: seq<Request>): seq<Action> {
    if requests == [] then []
    else [Look(c, requests[0].host), Generate(c, requests[0].made), Insert(c)] + OneByOne(c, requests[1..])
  }

  /** The answers that the calls get; a call that panics gets none. */
  function AnswersTo(requests: seq<Request>, pairs: seq<Option<Pair>>): seq<Answer>
    requires |pairs| == |requests|
  {
    if requests == [] then []
    else
      (if pairs[0].Some? then [Answer(requests[0].host, pairs[0].value)] else [])
      + AnswersTo(requests[1..], pairs[1..])
  }

  lemma {:induction false} ForgeAllLength(cache: map<Host, Pair>, requests: seq<Request>)
    ensures |ForgeAll(cache, requests)| == |requests|
    decreases |requests|
  {
    if requests != [] {
      ForgeAllLength(Forge(cache, requests[0].host, requests[0].made).0, requests[1..]);
    }
  }

  lemma {:induction false} RunSplits(s: State, a: seq<Action>, b: seq<Action>)
    ensures Run(s, a + b) == Run(Run(s, a), b)
    decreases |a|
  {
    hide Step;
    if a == [] {
      assert a + b == b;
    } else {
      assert (a + b)[1..] == a[1..] + b;
      RunSplits(Step(s, a[0]), a[1..], b);
    }
  }

  /** Calls that do not overlap are answered by the first-answer table. */
  lemma {:induction false} SequentialRunsMemoise(s: State, c: Caller, requests: seq<Request>)
    requires c !in s.phases
    ensures |ForgeAll(s.cache, requests)| == |requests|
    ensures Run(s, OneByOne(c, requests)).answers == s.answers + AnswersTo(requests, ForgeAll(s.cache, requests))
    decreases |requests|
  {
    hide Step;
    ForgeAllLength(s.cache, requests);
    if requests == [] {
      assert s.answers + [] == s.answers;
    } else {
      var host, made := requests[0].host, requests[0].made;
      var call := [Look(c, host), Generate(c, made), Insert(c)];
      var rest := OneByOne(c, requests[1..]);
      UninterruptedCall(s, c, host, made);
      RunSplits(s, call, rest);
      var s' := Run(s, call);
      SequentialRunsMemoise(s', c, requests[1..]);
      var pairs := ForgeAll(s.cache, requests);
      assert pairs[1..] == ForgeAll(s'.cache, requests[1..]);
      var first := if pairs[0].Some? then [Answer(host, pairs[0].value)] else [];
      assert s'.answers == s.answers + first;
      assert s.answers + first + AnswersTo(requests[1..], pairs[1..])
             == s.answers + (first + AnswersTo(requests[1..], pairs[1..]));
    }
  }
}
