/** Reusing one language's external scanner for another language by matching their external
    symbols, translating the valid-symbol flags going in and the result symbol coming out. */
module Adapter {
  import opened Wrappers

  /** `symbolNames[sym]` names symbol `sym`; a symbol beyond the table has the empty name. */
  datatype Language = Language(externals: seq<nat>, symbolNames: seq<string>, generated: bool)

  const UNMATCHED := -1

  function Name(lang: Language, i: nat): string
    requires i < |lang.externals|
  {
    if lang.externals[i] < |lang.symbolNames| then lang.symbolNames[lang.externals[i]] else ""
  }

  // ---------------------------------------------------------------- the matching

  /** How many of the first `n` externals carry `name`. */
  function Count(lang: Language, name: string, n: nat): nat
    requires n <= |lang.externals|
  {
    if n == 0 then 0 else Count(lang, name, n - 1) + if Name(lang, n - 1) == name then 1 else 0
  }

  /** The externals among the first `n` that carry `name`, in order. */
  function Bucket(lang: Language, name: string, n: nat): (b: seq<nat>)
    requires n <= |lang.externals|
    ensures |b| == Count(lang, name, n)
    ensures forall k :: 0 <= k < |b| ==> b[k] < n && Name(lang, b[k]) == name
  {
    if n == 0 then []
    else if Name(lang, n - 1) == name then Bucket(lang, name, n - 1) + [n - 1]
    else Bucket(lang, name, n - 1)
  }

  /** The position of an external among those of its name. */
  function Rank(lang: Language, i: nat): nat
    requires i < |lang.externals|
  {
    Count(lang, Name(lang, i), i)
  }

  /** Each bucket lists its externals by rank. */
  lemma {:induction false} BucketByRank(lang: Language, name: string, n: nat, k: nat)
    requires n <= |lang.externals| && k < Count(lang, name, n)
    ensures Rank(lang, Bucket(lang, name, n)[k]) == k
    decreases n
  {
    if k < Count(lang, name, n - 1) {
      BucketByRank(lang, name, n - 1, k);
    }
  }

  lemma {:induction false} RankFindsBucket(lang: Language, i: nat, n: nat)
    requires i < n <= |lang.externals|
    ensures Rank(lang, i) < Count(lang, Name(lang, i), n)
    ensures Bucket(lang, Name(lang, i), n)[Rank(lang, i)] == i
    decreases n
  {
    if i < n - 1 {
      RankFindsBucket(lang, i, n - 1);
    }
  }

  /** The pairing by name: the k-th target of a name goes with the k-th source of that name. */
  ghost predicate PairedByName(source: Language, target: Language, t: nat, s: nat) {
    && t < |target.externals| && s < |source.externals|
    && Name(target, t) == Name(source, s) && Rank(target, t) == Rank(source, s)
  }

  ghost predicate UsesIndexOnly(source: Language, target: Language) {
    target.generated ||
    (|source.externals| == |target.externals| && (RepeatsName(source) || RepeatsName(target)))
  }

  ghost predicate RepeatsName(lang: Language) {
    exists i, j :: 0 <= i < j < |lang.externals| && Name(lang, i) == Name(lang, j)
  }

  ghost predicate Paired(source: Language, target: Language, t: nat, s: nat) {
    if UsesIndexOnly(source, target) then t == s && t < |target.externals| && s < |source.externals|
    else PairedByName(source, target, t, s)
  }

  /** `t2s` records the pairing: a target's partner, or `UNMATCHED` when it has none. */
  ghost predicate Matching(source: Language, target: Language, t2s: seq<int>) {
    && |t2s| == |target.externals|
    && (forall t :: 0 <= t < |t2s| && t2s[t] != UNMATCHED ==> t2s[t] >= 0 && Paired(source, target, t, t2s[t]))
    && (forall t :: 0 <= t < |t2s| && t2s[t] == UNMATCHED ==>
          forall s: nat {:trigger Paired(source, target, t, s)} :: !Paired(source, target, t, s))
  }

  ghost predicate Injective(t2s: seq<int>) {
    forall t, u :: 0 <= t < u < |t2s| && t2s[t] != UNMATCHED ==> t2s[t] != t2s[u]
  }

  lemma {:induction false} PairingIsOneToOne(source: Language, target: Language, t: nat, u: nat, s: nat)
    requires Paired(source, target, t, s) && Paired(source, target, u, s)
    ensures t == u
  {
    if !UsesIndexOnly(source, target) {
      RankFindsBucket(target, t, |target.externals|);
      RankFindsBucket(target, u, |target.externals|);
    }
  }

  /** No source external serves two targets, whatever the two languages. */
  lemma {:induction false} MatchingIsInjective(source: Language, target: Language, t2s: seq<int>)
    requires Matching(source, target, t2s)
    ensures Injective(t2s)
  {
    forall t, u | 0 <= t < u < |t2s| && t2s[t] != UNMATCHED
      ensures t2s[t] != t2s[u]
    {
      if t2s[t] == t2s[u] {
        PairingIsOneToOne(source, target, t, u, t2s[t]);
      }
    }
  }

  // ---------------------------------------------------------------- building it

  method HasDuplicateNames(lang: Language) returns (found: bool)
    ensures found == RepeatsName(lang)
  {
    var seen: set<string> := {};
    for i := 0 to |lang.externals|
      invariant forall k :: 0 <= k < i ==> Name(lang, k) in seen
      invariant forall name :: name in seen ==> exists k :: 0 <= k < i && Name(lang, k) == name
      invariant forall j, k :: 0 <= j < k < i ==> Name(lang, j) != Name(lang, k)
    {
      if Name(lang, i) in seen {
        return true;
      }
      seen := seen + {Name(lang, i)};
    }
    return false;
  }

  method UsesIndexOnlyMapping(source: Language, target: Language) returns (yes: bool)
    ensures yes == UsesIndexOnly(source, target)
  {
    if target.generated {
      return true;
    }
    if |source.externals| != |target.externals| {
      return false;
    }
    yes := HasDuplicateNames(source);
    if !yes {
      yes := HasDuplicateNames(target);
    }
  }

  method MapByIndex(t2s: array<int>, used: array<bool>)
    requires forall t :: 0 <= t < t2s.Length ==> t2s[t] == UNMATCHED
    modifies t2s, used
    ensures forall t :: 0 <= t < t2s.Length ==> t2s[t] == if t < used.Length then t else UNMATCHED
  {
    var i := 0;
    while i < t2s.Length && i < used.Length
      invariant i <= t2s.Length && i <= used.Length
      invariant forall t :: 0 <= t < t2s.Length ==> t2s[t] == if t < i then t else UNMATCHED
    {
      t2s[i] := i;
      used[i] := true;
      i := i + 1;
    }
  }

  function BucketIn(byName: map<string, seq<nat>>, name: string): seq<nat> {
    if name in byName then byName[name] else []
  }

  /** The table lists, name by name, the first `n` externals. */
  ghost predicate Filed(lang: Language, byName: map<string, seq<nat>>, n: nat) {
    n <= |lang.externals| &&
    forall name {:trigger BucketIn(byName, name)} :: BucketIn(byName, name) == Bucket(lang, name, n)
  }

  lemma {:induction false} FileOne(lang: Language, byName: map<string, seq<nat>>, i: nat)
    requires i < |lang.externals| && Filed(lang, byName, i)
    ensures Filed(lang, byName[Name(lang, i) := BucketIn(byName, Name(lang, i)) + [i]], i + 1)
  {
    var after := byName[Name(lang, i) := BucketIn(byName, Name(lang, i)) + [i]];
    forall name ensures BucketIn(after, name) == Bucket(lang, name, i + 1) {
      assert BucketIn(byName, name) == Bucket(lang, name, i);
    }
  }

  method Buckets(lang: Language) returns (byName: map<string, seq<nat>>)
    ensures Filed(lang, byName, |lang.externals|)
  {
    byName := map[];
    for i := 0 to |lang.externals|
      invariant Filed(lang, byName, i)
    {
      FileOne(lang, byName, i);
      var name := Name(lang, i);
      byName := byName[name := BucketIn(byName, name) + [i]];
    }
  }

  /** The used flags after the first `n` targets: in every bucket, the front ones. */
  ghost predicate FrontUsed(source: Language, target: Language, n: nat, used: seq<bool>) {
    && |used| == |source.externals| && n <= |target.externals|
    && (forall s {:trigger used[s]} :: 0 <= s < |used| ==> (used[s] <==> Rank(source, s) < Count(target, Name(source, s), n)))
  }

  /** What the first `n` targets were given. */
  ghost predicate NamedSoFar(source: Language, target: Language, n: nat, t2s: seq<int>) {
    && n <= |target.externals| == |t2s|
    && (forall t {:trigger t2s[t]} :: n <= t < |t2s| ==> t2s[t] == UNMATCHED)
    && (forall t {:trigger t2s[t]} :: 0 <= t < n && t2s[t] != UNMATCHED ==> t2s[t] >= 0 && PairedByName(source, target, t, t2s[t]))
    && (forall t {:trigger t2s[t]} :: 0 <= t < n && t2s[t] == UNMATCHED ==>
          Count(source, Name(target, t), |source.externals|) <= Rank(target, t))
  }

  /** In a bucket the first unused place is the target's own rank. */
  lemma {:induction false} BucketUse(source: Language, target: Language, t: nat, used: seq<bool>, k: nat)
    requires FrontUsed(source, target, t, used) && t < |target.externals|
    requires k < Count(source, Name(target, t), |source.externals|)
    ensures used[Bucket(source, Name(target, t), |source.externals|)[k]] <==> k < Rank(target, t)
  {
    BucketByRank(source, Name(target, t), |source.externals|, k);
  }

  /** Taking the place at the target's rank keeps the front of every bucket used. */
  lemma {:induction false} TakeKeepsFront(source: Language, target: Language, t: nat, used: seq<bool>, s: nat)
    requires FrontUsed(source, target, t, used) && t < |target.externals|
    requires PairedByName(source, target, t, s)
    ensures FrontUsed(source, target, t + 1, used[s := true])
  {
    var after := used[s := true];
    forall i | 0 <= i < |after|
      ensures after[i] <==> Rank(source, i) < Count(target, Name(source, i), t + 1)
    {
      if Name(source, i) == Name(target, t) && i != s {
        RankFindsBucket(source, i, |source.externals|);
        RankFindsBucket(source, s, |source.externals|);
        assert Rank(source, i) != Rank(source, s);
      }
    }
  }

  /** With its bucket exhausted a target leaves the flags right as they are. */
  lemma {:induction false} MissKeepsFront(source: Language, target: Language, t: nat, used: seq<bool>)
    requires FrontUsed(source, target, t, used) && t < |target.externals|
    requires Count(source, Name(target, t), |source.externals|) <= Rank(target, t)
    ensures FrontUsed(source, target, t + 1, used)
  {
    forall i | 0 <= i < |used|
      ensures used[i] <==> Rank(source, i) < Count(target, Name(source, i), t + 1)
    {
      RankFindsBucket(source, i, |source.externals|);
    }
  }

  /** Gives target `t` the first candidate not yet used, if any. */
  method AssignFirstUnused(t: nat, candidates: seq<nat>, t2s: array<int>, used: array<bool>) returns (ghost taken: nat)
    requires t < t2s.Length
    requires forall k :: 0 <= k < |candidates| ==> candidates[k] < used.Length
    modifies t2s, used
    ensures taken <= |candidates|
    ensures forall k :: 0 <= k < taken ==> old(used[candidates[k]])
    ensures taken < |candidates| ==>
      && !old(used[candidates[taken]])
      && t2s[..] == old(t2s[..])[t := candidates[taken]]
      && used[..] == old(used[..])[candidates[taken] := true]
    ensures taken == |candidates| ==> t2s[..] == old(t2s[..]) && used[..] == old(used[..])
  {
    for k := 0 to |candidates|
      invariant t2s[..] == old(t2s[..]) && used[..] == old(used[..])
      invariant forall j :: 0 <= j < k ==> old(used[candidates[j]])
    {
      if !used[candidates[k]] {
        t2s[t] := candidates[k];
        used[candidates[k]] := true;
        return k;
      }
    }
    return |candidates|;
  }

  method MapByName(source: Language, target: Language, t2s: array<int>, used: array<bool>)
    requires t2s.Length == |target.externals| && used.Length == |source.externals|
    requires forall t :: 0 <= t < t2s.Length ==> t2s[t] == UNMATCHED
    requires forall s :: 0 <= s < used.Length ==> !used[s]
    modifies t2s, used
    ensures NamedSoFar(source, target, |target.externals|, t2s[..])
  {
    var byName := Buckets(source);
    for t := 0 to |target.externals|
      invariant FrontUsed(source, target, t, used[..])
      invariant NamedSoFar(source, target, t, t2s[..])
    {
      assert BucketIn(byName, Name(target, t)) == Bucket(source, Name(target, t), |source.externals|);
      MapOne(source, target, t, BucketIn(byName, Name(target, t)), t2s, used);
    }
  }

  /** Pairs one target with the first unused source of its name, if any is left. */
  method MapOne(source: Language, target: Language, t: nat, candidates: seq<nat>, t2s: array<int>, used: array<bool>)
    requires t < |target.externals| == t2s.Length && candidates == Bucket(source, Name(target, t), |source.externals|)
    requires FrontUsed(source, target, t, used[..]) && NamedSoFar(source, target, t, t2s[..])
    modifies t2s, used
    ensures FrontUsed(source, target, t + 1, used[..]) && NamedSoFar(source, target, t + 1, t2s[..])
  {
    ghost var before, beforeT2s := used[..], t2s[..];
    ghost var taken := AssignFirstUnused(t, candidates, t2s, used);
    ScanStopsAtRank(source, target, t, before, taken);
    NameRound(source, target, t, before, beforeT2s);
  }

  /** The scan of a bucket stops at the target's rank, or runs off a bucket too short. */
  lemma {:induction false} ScanStopsAtRank(source: Language, target: Language, t: nat, used: seq<bool>, taken: nat)
    requires FrontUsed(source, target, t, used) && t < |target.externals|
    requires taken <= Count(source, Name(target, t), |source.externals|)
    requires var b := Bucket(source, Name(target, t), |source.externals|);
      (forall k :: 0 <= k < taken ==> used[b[k]]) && (taken < |b| ==> !used[b[taken]])
    ensures taken <= Rank(target, t)
    ensures taken < Count(source, Name(target, t), |source.externals|) ==> taken == Rank(target, t)
  {
    var b := Bucket(source, Name(target, t), |source.externals|);
    if taken < |b| {
      BucketUse(source, target, t, used, taken);
    }
    if taken > 0 {
      BucketUse(source, target, t, used, taken - 1);
    }
  }

  lemma {:induction false} NameRound(source: Language, target: Language, t: nat, used: seq<bool>, t2s: seq<int>)
    requires FrontUsed(source, target, t, used) && t < |target.externals|
    requires NamedSoFar(source, target, t, t2s)
    ensures var b, k := Bucket(source, Name(target, t), |source.externals|), Rank(target, t);
      if k < |b| then
        && FrontUsed(source, target, t + 1, used[b[k] := true])
        && NamedSoFar(source, target, t + 1, t2s[t := b[k]])
      else FrontUsed(source, target, t + 1, used) && NamedSoFar(source, target, t + 1, t2s)
  {
    var b, k := Bucket(source, Name(target, t), |source.externals|), Rank(target, t);
    if k < |b| {
      BucketByRank(source, Name(target, t), |source.externals|, k);
      assert PairedByName(source, target, t, b[k]);
      TakeKeepsFront(source, target, t, used, b[k]);
      NamedTakes(source, target, t, t2s, b[k]);
    } else {
      MissKeepsFront(source, target, t, used);
    }
  }

  lemma {:induction false} NamedTakes(source: Language, target: Language, t: nat, t2s: seq<int>, s: nat)
    requires NamedSoFar(source, target, t, t2s) && PairedByName(source, target, t, s)
    ensures NamedSoFar(source, target, t + 1, t2s[t := s])
  {
    var after := t2s[t := s];
    forall k | 0 <= k < t + 1 && after[k] != UNMATCHED
      ensures after[k] >= 0 && PairedByName(source, target, k, after[k])
    {
      assert k < t ==> after[k] == t2s[k];
    }
  }

  /** Fills the gaps by index, for generated targets only. */
  method FillByIndex(target: Language, t2s: array<int>, used: array<bool>)
    modifies t2s, used
    ensures !target.generated ==> t2s[..] == old(t2s[..]) && used[..] == old(used[..])
    ensures target.generated ==> forall t :: 0 <= t < t2s.Length ==>
      t2s[t] == if t < used.Length && old(t2s[t]) == UNMATCHED && !old(used[t]) then t else old(t2s[t])
  {
    if !target.generated {
      return;
    }
    var i := 0;
    while i < t2s.Length && i < used.Length
      invariant i <= t2s.Length && i <= used.Length
      invariant forall t :: 0 <= t < t2s.Length ==>
        t2s[t] == if t < i && old(t2s[t]) == UNMATCHED && !old(used[t]) then t else old(t2s[t])
      invariant forall t :: i <= t < used.Length ==> used[t] == old(used[t])
    {
      if t2s[i] == UNMATCHED && !used[i] {
        t2s[i] := i;
        used[i] := true;
      }
      i := i + 1;
    }
  }

  lemma {:induction false} NamedIsMatching(source: Language, target: Language, t2s: seq<int>)
    requires !UsesIndexOnly(source, target)
    requires NamedSoFar(source, target, |target.externals|, t2s)
    ensures Matching(source, target, t2s)
  {
    forall t, s: nat | 0 <= t < |t2s| && t2s[t] == UNMATCHED ensures !Paired(source, target, t, s) {
      if PairedByName(source, target, t, s) {
        RankFindsBucket(source, s, |source.externals|);
      }
    }
  }

  method BuildMapping(source: Language, target: Language) returns (mapping: seq<int>)
    ensures Matching(source, target, mapping) && Injective(mapping)
  {
    var t2s := new int[|target.externals|](_ => UNMATCHED);
    var used := new bool[|source.externals|](_ => false);
    var indexOnly := UsesIndexOnlyMapping(source, target);
    if indexOnly {
      MapByIndex(t2s, used);
    } else {
      MapByName(source, target, t2s, used);
      FillByIndex(target, t2s, used);
      NamedIsMatching(source, target, t2s[..]);
    }
    mapping := t2s[..];
    MatchingIsInjective(source, target, mapping);
  }

  // ---------------------------------------------------------------- translating symbols

  ghost predicate InRange(t2s: seq<int>, targets: nat, sources: nat) {
    |t2s| == targets && forall t :: 0 <= t < |t2s| ==> -1 <= t2s[t] < sources
  }

  ghost predicate Assigned(t2s: seq<int>, s: int) {
    exists t :: 0 <= t < |t2s| && t2s[t] == s
  }

  /** Result symbols: one entry per source symbol.  A source without a target keeps its own
      symbol and overrides; otherwise the last target matched to that symbol wins. */
  ghost predicate Translates(sourceExt: seq<nat>, targetExt: seq<nat>, t2s: seq<int>, m: map<nat, nat>)
    requires InRange(t2s, |targetExt|, |sourceExt|)
  {
    && (forall y :: y in m <==> y in sourceExt)
    && (forall s :: 0 <= s < |sourceExt| && !Assigned(t2s, s) ==> m[sourceExt[s]] == sourceExt[s])
    && (forall t :: 0 <= t < |t2s| && t2s[t] != UNMATCHED && Deciding(sourceExt, t2s, t) ==>
          m[sourceExt[t2s[t]]] == targetExt[t])
  }

  /** Nothing written after target `t` names the same source symbol. */
  ghost predicate Deciding(sourceExt: seq<nat>, t2s: seq<int>, t: nat)
    requires t < |t2s| && forall t :: 0 <= t < |t2s| ==> -1 <= t2s[t] < |sourceExt|
    requires t2s[t] != UNMATCHED
  {
    && LastSoFar(sourceExt, t2s, |t2s|, t)
    && (forall s :: 0 <= s < |sourceExt| && !Assigned(t2s, s) ==> sourceExt[s] != sourceExt[t2s[t]])
  }

  ghost predicate LastSoFar(sourceExt: seq<nat>, t2s: seq<int>, n: nat, t: nat)
    requires t < n <= |t2s| && forall t :: 0 <= t < |t2s| ==> -1 <= t2s[t] < |sourceExt|
    requires t2s[t] != UNMATCHED
  {
    forall u :: t < u < n && t2s[u] != UNMATCHED ==> sourceExt[t2s[u]] != sourceExt[t2s[t]]
  }

  /** The result map and the served flags after the first `n` targets. */
  ghost predicate TranslatesSoFar(sourceExt: seq<nat>, targetExt: seq<nat>, t2s: seq<int>, n: nat,
                                  m: map<nat, nat>, served: seq<bool>)
    requires InRange(t2s, |targetExt|, |sourceExt|) && n <= |t2s| && |served| == |sourceExt|
  {
    && (forall s {:trigger served[s]} :: 0 <= s < |sourceExt| ==> (served[s] <==> Assigned(t2s[..n], s)))
    && (forall y :: y in m ==> y in sourceExt)
    && (forall s {:trigger served[s]} :: 0 <= s < |sourceExt| && served[s] ==> sourceExt[s] in m)
    && (forall k {:trigger LastSoFar(sourceExt, t2s, n, k)} ::
          0 <= k < n && t2s[k] != UNMATCHED && LastSoFar(sourceExt, t2s, n, k) ==>
          sourceExt[t2s[k]] in m && m[sourceExt[t2s[k]]] == targetExt[k])
  }

  lemma {:induction false} AssignedStep(t2s: seq<int>, n: nat, s: int)
    requires n < |t2s|
    ensures Assigned(t2s[..n + 1], s) <==> Assigned(t2s[..n], s) || t2s[n] == s
  {
    var before, after := t2s[..n], t2s[..n + 1];
    assert after == before + [t2s[n]];
    if Assigned(before, s) {
      var k :| 0 <= k < n && before[k] == s;
      assert after[k] == s;
    }
    if t2s[n] == s {
      assert after[n] == s;
    }
  }

  lemma {:induction false} TranslateStep(sourceExt: seq<nat>, targetExt: seq<nat>, t2s: seq<int>, n: nat,
                                         m: map<nat, nat>, served: seq<bool>)
    requires InRange(t2s, |targetExt|, |sourceExt|) && n < |t2s| && |served| == |sourceExt|
    requires TranslatesSoFar(sourceExt, targetExt, t2s, n, m, served)
    ensures if t2s[n] == UNMATCHED then TranslatesSoFar(sourceExt, targetExt, t2s, n + 1, m, served)
            else TranslatesSoFar(sourceExt, targetExt, t2s, n + 1, m[sourceExt[t2s[n]] := targetExt[n]],
                                 served[t2s[n] := true])
  {
    forall s ensures Assigned(t2s[..n + 1], s) <==> Assigned(t2s[..n], s) || t2s[n] == s {
      AssignedStep(t2s, n, s);
    }
    forall k | 0 <= k < n && t2s[k] != UNMATCHED && LastSoFar(sourceExt, t2s, n + 1, k)
      ensures LastSoFar(sourceExt, t2s, n, k)
      ensures t2s[n] != UNMATCHED ==> sourceExt[t2s[n]] != sourceExt[t2s[k]]
    {
    }
  }

  method BuildResultMap(sourceExt: seq<nat>, targetExt: seq<nat>, t2s: seq<int>) returns (m: map<nat, nat>)
    requires InRange(t2s, |targetExt|, |sourceExt|)
    ensures Translates(sourceExt, targetExt, t2s, m)
  {
    m := map[];
    var served := new bool[|sourceExt|](_ => false);
    for t := 0 to |t2s|
      invariant TranslatesSoFar(sourceExt, targetExt, t2s, t, m, served[..])
    {
      TranslateStep(sourceExt, targetExt, t2s, t, m, served[..]);
      if t2s[t] != UNMATCHED {
        served[t2s[t]] := true;
        m := m[sourceExt[t2s[t]] := targetExt[t]];
      }
    }
    assert t2s[..|t2s|] == t2s;
    m := AddUnassigned(sourceExt, served[..], m);
  }

  method AddUnassigned(sourceExt: seq<nat>,
                       served: seq<bool>, m0: map<nat, nat>) returns (m: map<nat, nat>)
    requires |served| == |sourceExt|
    requires forall y :: y in m0 ==> y in sourceExt
    ensures forall y :: y in m <==> y in m0 || exists s :: 0 <= s < |sourceExt| && !served[s] && sourceExt[s] == y
    ensures forall s :: 0 <= s < |sourceExt| && !served[s] ==> m[sourceExt[s]] == sourceExt[s]
    ensures forall y :: y in m0 && (forall s :: 0 <= s < |sourceExt| && !served[s] ==> sourceExt[s] != y) ==>
      m[y] == m0[y]
  {
    m := m0;
    for i := 0 to |served|
      invariant forall y :: y in m <==> y in m0 || exists s :: 0 <= s < i && !served[s] && sourceExt[s] == y
      invariant forall s :: 0 <= s < i && !served[s] ==> m[sourceExt[s]] == sourceExt[s]
      invariant forall y :: y in m0 && (forall s :: 0 <= s < i && !served[s] ==> sourceExt[s] != y) ==> m[y] == m0[y]
    {
      if !served[i] {
        m := m[sourceExt[i] := sourceExt[i]];
      }
    }
  }

  ghost predicate FirstIndex(ext: seq<nat>, index: map<nat, nat>) {
    && (forall y :: y in index <==> y in ext)
    && (forall y :: y in index ==> index[y] < |ext| && ext[index[y]] == y && y !in ext[..index[y]])
  }

  method BuildSymbolIndex(ext: seq<nat>) returns (index: map<nat, nat>)
    ensures FirstIndex(ext, index)
  {
    index := map[];
    for i := 0 to |ext|
      invariant forall y :: y in index <==> y in ext[..i]
      invariant forall y :: y in index ==> index[y] < i && ext[index[y]] == y && y !in ext[..index[y]]
    {
      if ext[i] !in index {
        index := index[ext[i] := i];
      }
    }
    assert ext[..|ext|] == ext;
  }

  // ---------------------------------------------------------------- flags going in

  ghost predicate MarkedValid(valid: seq<bool>, t2s: seq<int>, s: int) {
    exists t :: 0 <= t < |valid| && t < |t2s| && valid[t] && t2s[t] == s
  }

  /** Flags for the source scanner: a source is valid when the target it serves is. */
  ghost predicate Pushed(valid: seq<bool>, t2s: seq<int>, flags: seq<bool>) {
    forall s :: 0 <= s < |flags| ==> (flags[s] <==> MarkedValid(valid, t2s, s))
  }

  /** A target's row of valid externals, read off its source's row. */
  function PulledRow(row: seq<bool>, t2s: seq<int>): seq<bool> {
    seq(|t2s|, t requires 0 <= t < |t2s| => 0 <= t2s[t] < |row| && row[t2s[t]])
  }

  /** A source row carried to the target and back is the row restricted to matched sources. */
  lemma {:induction false} RowRoundTrip(row: seq<bool>, t2s: seq<int>, flags: seq<bool>)
    requires |flags| == |row| && Pushed(PulledRow(row, t2s), t2s, flags)
    ensures forall s :: 0 <= s < |row| ==> (flags[s] <==> row[s] && Assigned(t2s, s))
  {
    var valid := PulledRow(row, t2s);
    forall s | 0 <= s < |row| ensures flags[s] <==> row[s] && Assigned(t2s, s) {
      if row[s] && Assigned(t2s, s) {
        var t :| 0 <= t < |t2s| && t2s[t] == s;
        assert valid[t];
      }
    }
  }

  method AdaptRows(rows: seq<seq<bool>>, t2s: seq<int>) returns (adapted: seq<seq<bool>>)
    ensures |adapted| == |rows|
    ensures forall r :: 0 <= r < |rows| ==> adapted[r] == PulledRow(rows[r], t2s)
  {
    adapted := [];
    for r := 0 to |rows|
      invariant |adapted| == r
      invariant forall k :: 0 <= k < r ==> adapted[k] == PulledRow(rows[k], t2s)
    {
      var row := new bool[|t2s|](_ => false);
      for t := 0 to |t2s|
        invariant forall k :: 0 <= k < |t2s| ==> row[k] == (k < t && PulledRow(rows[r], t2s)[k])
      {
        if 0 <= t2s[t] < |rows[r]| && rows[r][t2s[t]] {
          row[t] := true;
        }
      }
      assert row[..] == PulledRow(rows[r], t2s);
      adapted := adapted + [row[..]];
    }
  }

  // ---------------------------------------------------------------- scanning

  /** What the inner scanner reports: whether it succeeded, and the symbol it set, if any. */
  datatype Outcome = Outcome(ok: bool, result: Option<nat>)

  /** The lexer's result fields. */
  class ResultSlot {
    var symbol: nat
    var hasResult: bool
  }

  /** The flag buffer kept between scans. */
  class Payload {
    var flags: array<bool>

    constructor (sources: nat)
      ensures flags.Length == sources && fresh(flags)
    {
      flags := new bool[sources](_ => false);
    }
  }

  class OrderAdapter {
    const inner: seq<bool> -> Outcome
    const t2s: seq<int>
    const sourceExt: seq<nat>
    const targetExt: seq<nat>
    const sourceIndex: map<nat, nat>
    const resultToTarget: map<nat, nat>

    ghost predicate Valid() {
      && InRange(t2s, |targetExt|, |sourceExt|) && Injective(t2s)
      && FirstIndex(sourceExt, sourceIndex)
      && Translates(sourceExt, targetExt, t2s, resultToTarget)
    }

    constructor (source: Language, target: Language, scanner: seq<bool> -> Outcome)
      ensures Valid() && sourceExt == source.externals && targetExt == target.externals
      ensures Matching(source, target, t2s) && inner == scanner
    {
      var mapping := BuildMapping(source, target);
      assert InRange(mapping, |target.externals|, |source.externals|) by {
        forall t | 0 <= t < |mapping| ensures -1 <= mapping[t] < |source.externals| {
          assert mapping[t] != UNMATCHED ==> Paired(source, target, t, mapping[t]);
        }
      }
      var index := BuildSymbolIndex(source.externals);
      var results := BuildResultMap(source.externals, target.externals, mapping);
      inner, t2s, sourceExt, targetExt := scanner, mapping, source.externals, target.externals;
      sourceIndex, resultToTarget := index, results;
    }

    /** The buffer of the previous scan is reused when it is large enough, and cleared. */
    method PrepareFlags(payload: Payload)
      modifies payload, payload.flags
      ensures payload.flags == old(payload.flags) || fresh(payload.flags)
      ensures payload.flags.Length >= |sourceExt|
      ensures forall s :: 0 <= s < |sourceExt| ==> !payload.flags[s]
    {
      if payload.flags.Length < |sourceExt| {
        payload.flags := new bool[|sourceExt|](_ => false);
        return;
      }
      for s := 0 to |sourceExt|
        invariant forall k :: 0 <= k < s ==> !payload.flags[k]
        modifies payload.flags
      {
        payload.flags[s] := false;
      }
    }

    method MapValid(valid: seq<bool>, flags: array<bool>)
      requires flags.Length >= |sourceExt| && forall s :: 0 <= s < |sourceExt| ==> !flags[s]
      modifies flags
      ensures Pushed(valid, t2s, flags[..|sourceExt|])
    {
      for t := 0 to |valid|
        invariant forall s :: 0 <= s < |sourceExt| ==> (flags[s] <==> MarkedValid(valid[..t], t2s, s))
      {
        assert valid[..t + 1] == valid[..t] + [valid[t]];
        assert forall s :: MarkedValid(valid[..t], t2s, s) ==> MarkedValid(valid[..t + 1], t2s, s) by {
          assert forall k :: 0 <= k < t ==> valid[..t + 1][k] == valid[..t][k];
        }
        if valid[t] && t < |t2s| {
          var s := t2s[t];
          if 0 <= s < |sourceExt| {
            assert valid[..t + 1][t];
            flags[s] := true;
          }
        }
      }
      assert valid[..|valid|] == valid;
    }

    predicate WasValid(symbol: nat, flags: seq<bool>)
    {
      symbol in sourceIndex && sourceIndex[symbol] < |flags| && flags[sourceIndex[symbol]]
    }

    /** The whole scan as a function of the caller's flags: the translated symbol when the
        inner result was valid, the inner verdict unchanged when there was no result. */
    function Answer(flags: seq<bool>): Outcome {
      var o := inner(flags);
      if !o.ok || o.result.None? then o
      else if o.result.value in resultToTarget && WasValid(o.result.value, flags) then
        Outcome(true, Some(resultToTarget[o.result.value]))
      else Outcome(false, None)
    }

    /** Runs the inner scanner on translated flags and translates its result back. */
    method Scan(payload: Payload, slot: ResultSlot, valid: seq<bool>) returns (ok: bool, ghost flags: seq<bool>)
      requires Valid()
      modifies payload, payload.flags, slot
      ensures |flags| == |sourceExt| && Pushed(valid, t2s, flags)
      ensures ok == Answer(flags).ok
      ensures ok ==> slot.hasResult == Answer(flags).result.Some?
      ensures ok && slot.hasResult ==> slot.symbol == Answer(flags).result.value
      ensures inner(flags).ok && !ok ==> !slot.hasResult && slot.symbol == 0
      ensures ok && slot.hasResult && Distinct(sourceExt) ==> Offered(slot.symbol, valid, targetExt)
    {
      PrepareFlags(payload);
      MapValid(valid, payload.flags);
      var given := payload.flags[..|sourceExt|];
      flags := given;
      var outcome := inner(given);
      slot.hasResult := outcome.result.Some?;
      if outcome.result.Some? {
        slot.symbol := outcome.result.value;
      }
      if !outcome.ok {
        return false, flags;
      }
      ok := true;
      if slot.hasResult {
        if slot.symbol in resultToTarget && WasValid(slot.symbol, given) {
          if Distinct(sourceExt) {
            EmitsOffered(sourceExt, targetExt, t2s, resultToTarget, sourceIndex, valid, given, slot.symbol);
          }
          slot.symbol := resultToTarget[slot.symbol];
        } else {
          slot.symbol, slot.hasResult, ok := 0, false, false;
        }
      }
    }

  }

  // ---------------------------------------------------------------- what is emitted

  predicate Distinct(ext: seq<nat>) {
    forall i, j :: 0 <= i < j < |ext| ==> ext[i] != ext[j]
  }

  /** `symbol` is the target symbol of an external the caller marked valid. */
  ghost predicate Offered(symbol: nat, valid: seq<bool>, targetExt: seq<nat>) {
    exists t :: 0 <= t < |valid| && t < |targetExt| && valid[t] && targetExt[t] == symbol
  }

  /** Each first occurrence of a source symbol translates to the target it serves. */
  ghost predicate Faithful(sourceExt: seq<nat>, targetExt: seq<nat>, t2s: seq<int>, m: map<nat, nat>, index: map<nat, nat>)
    requires InRange(t2s, |targetExt|, |sourceExt|) && FirstIndex(sourceExt, index)
    requires forall y :: y in sourceExt ==> y in m
  {
    forall t :: 0 <= t < |t2s| && t2s[t] != UNMATCHED && index[sourceExt[t2s[t]]] == t2s[t] ==>
      m[sourceExt[t2s[t]]] == targetExt[t]
  }

  lemma {:induction false} DistinctIsFaithful(sourceExt: seq<nat>, targetExt: seq<nat>, t2s: seq<int>,
                                              m: map<nat, nat>, index: map<nat, nat>)
    requires InRange(t2s, |targetExt|, |sourceExt|) && Injective(t2s)
    requires Translates(sourceExt, targetExt, t2s, m) && FirstIndex(sourceExt, index)
    requires Distinct(sourceExt)
    ensures Faithful(sourceExt, targetExt, t2s, m, index)
  {
    forall t | 0 <= t < |t2s| && t2s[t] != UNMATCHED ensures m[sourceExt[t2s[t]]] == targetExt[t] {
      forall u | t < u < |t2s| && t2s[u] != UNMATCHED ensures sourceExt[t2s[u]] != sourceExt[t2s[t]] {
        assert t2s[u] != t2s[t];
      }
      forall s | 0 <= s < |sourceExt| && !Assigned(t2s, s) ensures sourceExt[s] != sourceExt[t2s[t]] {
        assert s != t2s[t];
      }
      assert Deciding(sourceExt, t2s, t);
    }
  }

  /** Every translated symbol of a valid inner result is one the caller offered. */
  ghost predicate AlwaysOffered(sourceExt: seq<nat>, targetExt: seq<nat>, t2s: seq<int>, m: map<nat, nat>, index: map<nat, nat>)
    requires FirstIndex(sourceExt, index) && forall y :: y in sourceExt ==> y in m
  {
    forall valid: seq<bool>, y: nat {:trigger Offered(m[y], valid, targetExt)} ::
      y in sourceExt && MarkedValid(valid, t2s, index[y]) ==> Offered(m[y], valid, targetExt)
  }

  /** For every pair of languages, faithful translation is exactly what makes every emitted
      symbol one the caller offered. */
  lemma {:induction false} OfferedIffFaithful(sourceExt: seq<nat>, targetExt: seq<nat>, t2s: seq<int>,
                                              m: map<nat, nat>, index: map<nat, nat>)
    requires InRange(t2s, |targetExt|, |sourceExt|) && FirstIndex(sourceExt, index)
    requires Translates(sourceExt, targetExt, t2s, m)
    ensures AlwaysOffered(sourceExt, targetExt, t2s, m, index) <==> Faithful(sourceExt, targetExt, t2s, m, index)
  {
    if AlwaysOffered(sourceExt, targetExt, t2s, m, index) {
      forall t | 0 <= t < |t2s| && t2s[t] != UNMATCHED && index[sourceExt[t2s[t]]] == t2s[t]
        ensures m[sourceExt[t2s[t]]] == targetExt[t]
      {
        var only := seq(|t2s|, k => k == t);
        assert only[t];
        assert MarkedValid(only, t2s, t2s[t]);
        assert Offered(m[sourceExt[t2s[t]]], only, targetExt);
      }
    } else {
      var valid, y: nat :| y in sourceExt && MarkedValid(valid, t2s, index[y]) && !Offered(m[y], valid, targetExt);
      var t :| 0 <= t < |valid| && t < |t2s| && valid[t] && t2s[t] == index[y];
      assert m[y] != targetExt[t];
    }
  }

  lemma {:induction false} EmitsOffered(sourceExt: seq<nat>, targetExt: seq<nat>, t2s: seq<int>, m: map<nat, nat>,
                                        index: map<nat, nat>, valid: seq<bool>, flags: seq<bool>, y: nat)
    requires InRange(t2s, |targetExt|, |sourceExt|) && Injective(t2s) && Distinct(sourceExt)
    requires Translates(sourceExt, targetExt, t2s, m) && FirstIndex(sourceExt, index)
    requires Pushed(valid, t2s, flags) && y in index && index[y] < |flags| && flags[index[y]]
    ensures y in m && Offered(m[y], valid, targetExt)
  {
    DistinctIsFaithful(sourceExt, targetExt, t2s, m, index);
    OfferedIffFaithful(sourceExt, targetExt, t2s, m, index);
  }

  /** Two source externals share a symbol, and the target has as many externals. */
  ghost predicate SharesSymbol(source: Language, target: Language, symbol: nat) {
    source.externals == [symbol, symbol] && |target.externals| == 2 && target.externals[0] != target.externals[1]
  }

  /** Two source externals sharing a symbol break it, whatever the names: only the first target is
      marked valid, and the second target's symbol comes out. */
  lemma {:induction false} RepeatedSymbolLeaks(source: Language, target: Language, symbol: nat, t2s: seq<int>,
                                               m: map<nat, nat>, index: map<nat, nat>)
    requires SharesSymbol(source, target, symbol) && Matching(source, target, t2s)
    requires InRange(t2s, 2, 2) && Translates(source.externals, target.externals, t2s, m) && FirstIndex(source.externals, index)
    ensures index[symbol] == 0 && MarkedValid([true, false], t2s, index[symbol])
    ensures m[symbol] == target.externals[1] && !Offered(m[symbol], [true, false], target.externals)
  {
    var ext := source.externals;
    assert ext[0] == ext[1] == symbol && ext[..1] == [symbol];
    assert index[symbol] == 0;
    MatchedByIndex(source, target, symbol, t2s);
    assert t2s[0] == 0 && t2s[1] == 1;
    assert Assigned(t2s, 0) && Assigned(t2s, 1);
    assert Deciding(ext, t2s, 1);
    assert [true, false][0] && ![true, false][1];
  }

  lemma {:induction false} MatchedByIndex(source: Language, target: Language, symbol: nat, t2s: seq<int>)
    requires SharesSymbol(source, target, symbol) && Matching(source, target, t2s)
    ensures t2s == [0, 1]
  {
    assert Name(source, 0) == Name(source, 1);
    assert RepeatsName(source) && UsesIndexOnly(source, target);
    assert Paired(source, target, 0, 0) && Paired(source, target, 1, 1);
  }

  /** Such a pair of languages through the adapter: a scanner that reports the shared symbol is
      asked for the first target only, and the caller gets the second. */
  method ScanLeaks(source: Language, target: Language, symbol: nat) returns (slot: ResultSlot, ok: bool)
    requires SharesSymbol(source, target, symbol)
    ensures ok && slot.hasResult && !Offered(slot.symbol, [true, false], target.externals)
  {
    var adapter := new OrderAdapter(source, target, _ => Outcome(true, Some(symbol)));
    var payload := new Payload(2);
    slot := new ResultSlot;
    RepeatedSymbolLeaks(source, target, symbol, adapter.t2s, adapter.resultToTarget, adapter.sourceIndex);
    ghost var flags;
    ok, flags := adapter.Scan(payload, slot, [true, false]);
    assert source.externals[0] in adapter.resultToTarget;
  }
}
