/**
 * Keystrokes, their frequency tables, and the generator that turns the
 * tables into an endless pseudo-random keystroke sequence: a Markov chain
 * whose next-step weights are the unigram counts, boosted by the bigram
 * continuations of the last keystroke and the trigram continuations of the
 * last two.
 */
module Corpus {
  import opened Wrappers
  import opened Events
  import Tally

  /** A key press with its OS interpretation; two keystrokes are equal when both fields are. */
  datatype Keystroke = Keystroke(key: Key, interpreted: string)

  /** How often each keystroke was pressed. */
  type KeystrokeHeatmap = map<Keystroke, nat>
  /** How often each (older, newer) pair of keystrokes was typed in a row. */
  type BigramHeatmap = map<(Keystroke, Keystroke), nat>
  /** How often each (oldest, middle, newest) triple of keystrokes was typed in a row. */
  type TrigramHeatmap = map<(Keystroke, Keystroke, Keystroke), nat>

  /** The three frequency tables the statistics store keeps. */
  datatype Tables = Tables(heatmap: KeystrokeHeatmap, bigram: BigramHeatmap, trigram: TrigramHeatmap)

  /** The tables of a fresh store: all three empty. */
  const EmptyTables := Tables(map[], map[], map[])

  /** A list of (index of a next keystroke, extra weight) pairs. */
  type Successors = seq<(nat, nat)>

  ghost predicate NoDuplicates<T>(s: seq<T>) {
    forall i, j :: 0 <= i < j < |s| ==> s[i] != s[j]
  }

  /** Every target index of `succ` is below `n`. */
  ghost predicate TargetsBelow(succ: Successors, n: nat) {
    forall s :: s in succ ==> s.0 < n
  }

  /** No two pairs of `succ` name the same target. */
  ghost predicate DistinctTargets(succ: Successors) {
    forall j, j' :: 0 <= j < j' < |succ| ==> succ[j].0 != succ[j'].0
  }

  /** The sum of a weight vector. */
  function Sum(ws: seq<nat>): nat {
    if ws == [] then 0 else Sum(ws[..|ws| - 1]) + ws[|ws| - 1]
  }

  lemma SumPrefixStep(ws: seq<nat>, i: nat)
    requires i < |ws|
    ensures Sum(ws[..i + 1]) == Sum(ws[..i]) + ws[i]
  {
    assert ws[..i + 1][..i] == ws[..i];
  }

  /** No single weight exceeds the sum. */
  lemma {:induction false} WeightBelowSum(ws: seq<nat>, i: nat)
    requires i < |ws|
    ensures ws[i] <= Sum(ws)
  {
    if i < |ws| - 1 {
      WeightBelowSum(ws[..|ws| - 1], i);
    }
  }

  /** The total extra weight `succ` gives to target index `i`. */
  function BoostFor(succ: Successors, i: nat): nat {
    if succ == [] then 0
    else BoostFor(succ[..|succ| - 1], i) + (if succ[|succ| - 1].0 == i then succ[|succ| - 1].1 else 0)
  }

  /** A list that never names `i` gives it no extra weight. */
  lemma {:induction false} BoostForAbsent(succ: Successors, i: nat)
    requires forall s :: s in succ ==> s.0 != i
    ensures BoostFor(succ, i) == 0
  {
    if succ != [] {
      BoostForAbsent(succ[..|succ| - 1], i);
    }
  }

  /** When `i` is named by exactly one pair of `succ`, it gets exactly that pair's weight. */
  lemma {:induction false} BoostForSingle(succ: Successors, j: nat)
    requires j < |succ| && DistinctTargets(succ)
    ensures BoostFor(succ, succ[j].0) == succ[j].1
  {
    var n := |succ| - 1;
    var init := succ[..n];
    if j == n {
      BoostForAbsent(init, succ[j].0);
    } else {
      BoostForSingle(init, j);
    }
  }

  /**
   * The first step of `Generator::new`: the unigram table taken apart into
   * a dense list of its keystrokes and a parallel list of their counts, in
   * the table's (arbitrary) enumeration order.
   */
  method Unzip(heatmap: KeystrokeHeatmap) returns (keys: seq<Keystroke>, weights: seq<nat>)
    ensures |keys| == |weights| && NoDuplicates(keys)
    ensures forall k :: k in keys <==> k in heatmap
    ensures forall i :: 0 <= i < |keys| ==> weights[i] == heatmap[keys[i]]
  {
    keys, weights := [], [];
    var rest := heatmap.Keys;
    while rest != {}
      invariant rest <= heatmap.Keys
      invariant |keys| == |weights| && NoDuplicates(keys)
      invariant forall k :: k in keys <==> k in heatmap && k !in rest
      invariant forall i :: 0 <= i < |keys| ==> weights[i] == heatmap[keys[i]]
      decreases rest
    {
      var k :| k in rest;
      keys, weights := keys + [k], weights + [heatmap[k]];
      rest := rest - {k};
    }
  }

  /**
   * `keylookup` of `Generator::new`: each keystroke mapped to its position
   * in the dense list (the last one, should a keystroke occur twice).
   */
  method KeyLookup(keys: seq<Keystroke>) returns (lookup: map<Keystroke, nat>)
    ensures forall k :: k in lookup <==> k in keys
    ensures forall k :: k in lookup ==> lookup[k] < |keys| && keys[lookup[k]] == k
    ensures NoDuplicates(keys) ==> forall i :: 0 <= i < |keys| ==> lookup[keys[i]] == i
  {
    lookup := map[];
    for i := 0 to |keys|
      invariant forall k :: k in lookup <==> k in keys[..i]
      invariant forall k :: k in lookup ==> lookup[k] < i && keys[lookup[k]] == k
    {
      lookup := lookup[keys[i] := i];
    }
    assert keys[..|keys|] == keys;
  }

  /** `lookup.entry(index).or_insert(Vec::new()).push(pair)`: append `pair` to the list of `index`. */
  function Append<G>(lookup: map<G, Successors>, index: G, pair: (nat, nat)): (r: map<G, Successors>)
    ensures r.Keys == lookup.Keys + {index}
    ensures r[index] == (if index in lookup then lookup[index] else []) + [pair]
    ensures forall g :: g in lookup && g != index ==> r[g] == lookup[g]
  {
    lookup[index := (if index in lookup then lookup[index] else []) + [pair]]
  }

  /** `pair` can be appended to `succ` without two pairs sharing a target. */
  lemma AppendDistinct(succ: Successors, pair: (nat, nat))
    requires DistinctTargets(succ)
    requires forall s :: s in succ ==> s.0 != pair.0
    ensures DistinctTargets(succ + [pair])
  {
    var r := succ + [pair];
    forall j, j' | 0 <= j < j' < |r| ensures r[j].0 != r[j'].0 {
      if j' == |succ| {
        assert r[j] in succ;
      }
    }
  }

  /** `keylookup` sends every keystroke to a position of `keys` that holds it. */
  ghost predicate Inverts(keylookup: map<Keystroke, nat>, keys: seq<Keystroke>) {
    forall k :: k in keylookup ==> keylookup[k] < |keys| && keys[keylookup[k]] == k
  }

  /** Every bigram of `done` is listed under the index of its first keystroke. */
  ghost predicate BigramsListed(bigrams: BigramHeatmap, keylookup: map<Keystroke, nat>,
                                lookup: map<nat, Successors>, done: set<(Keystroke, Keystroke)>)
  {
    forall p :: p in done && p in bigrams ==>
      p.0 in keylookup && p.1 in keylookup
      && keylookup[p.0] in lookup && (keylookup[p.1], bigrams[p]) in lookup[keylookup[p.0]]
  }

  /**
   * The list `succ` of index `i` is non-empty, names each target once, and
   * each of its pairs is a bigram outside `rest`, with its count.
   */
  ghost predicate BigramListSound(bigrams: BigramHeatmap, keys: seq<Keystroke>, i: nat,
                                  succ: Successors, rest: set<(Keystroke, Keystroke)>)
  {
    && i < |keys| && succ != [] && DistinctTargets(succ)
    && forall s: (nat, nat) :: s in succ ==>
      && s.0 < |keys| && (keys[i], keys[s.0]) in bigrams && (keys[i], keys[s.0]) !in rest
      && bigrams[(keys[i], keys[s.0])] == s.1
  }

  ghost predicate BigramsSound(bigrams: BigramHeatmap, keys: seq<Keystroke>,
                               lookup: map<nat, Successors>, rest: set<(Keystroke, Keystroke)>)
  {
    forall i :: i in lookup ==> BigramListSound(bigrams, keys, i, lookup[i], rest)
  }

  /** One step of the bigram loop keeps both loop invariants. */
  lemma BigramStep(bigrams: BigramHeatmap, keylookup: map<Keystroke, nat>, keys: seq<Keystroke>,
                   lookup: map<nat, Successors>, rest: set<(Keystroke, Keystroke)>, p: (Keystroke, Keystroke))
    requires Inverts(keylookup, keys)
    requires p in rest && rest <= bigrams.Keys && p.0 in keylookup && p.1 in keylookup
    requires BigramsListed(bigrams, keylookup, lookup, bigrams.Keys - rest)
    requires BigramsSound(bigrams, keys, lookup, rest)
    ensures BigramsListed(bigrams, keylookup, Append(lookup, keylookup[p.0], (keylookup[p.1], bigrams[p])),
                          bigrams.Keys - (rest - {p}))
    ensures BigramsSound(bigrams, keys, Append(lookup, keylookup[p.0], (keylookup[p.1], bigrams[p])), rest - {p})
  {
    var index, pair := keylookup[p.0], (keylookup[p.1], bigrams[p]);
    var entry := if index in lookup then lookup[index] else [];
    var r := Append(lookup, index, pair);
    forall s | s in entry ensures s.0 != pair.0 {
      assert (keys[index], keys[s.0]) != p && keys[index] == p.0 && keys[pair.0] == p.1;
    }
    AppendDistinct(entry, pair);
    forall q | q in bigrams.Keys - (rest - {p}) && q in bigrams
      ensures q.0 in keylookup && q.1 in keylookup
        && keylookup[q.0] in r && (keylookup[q.1], bigrams[q]) in r[keylookup[q.0]]
    {
      if q != p {
        assert q in bigrams.Keys - rest;
        if keylookup[q.0] == index {
          assert (keylookup[q.1], bigrams[q]) in entry;
        }
      }
    }
    forall i | i in r ensures BigramListSound(bigrams, keys, i, r[i], rest - {p}) {
      if i == index {
        forall s: (nat, nat) | s in r[i]
          ensures s.0 < |keys| && (keys[i], keys[s.0]) in bigrams && (keys[i], keys[s.0]) !in rest - {p}
            && bigrams[(keys[i], keys[s.0])] == s.1
        {
          if s == pair {
            assert (keys[i], keys[s.0]) == p;
          } else {
            assert s in entry;
          }
        }
      } else {
        assert BigramListSound(bigrams, keys, i, lookup[i], rest);
      }
    }
  }

  /**
   * `bigram_lookup` of `Generator::new`: for every bigram `((a, b), w)`
   * the pair `(index of b, w)` is appended to the list of the index of `a`.
   * `keys` is the dense list that `keylookup` inverts.
   */
  method BigramLookup(bigrams: BigramHeatmap, keylookup: map<Keystroke, nat>, ghost keys: seq<Keystroke>)
    returns (lookup: map<nat, Successors>)
    requires forall p :: p in bigrams ==> p.0 in keylookup && p.1 in keylookup
    requires Inverts(keylookup, keys)
    ensures forall p :: p in bigrams ==>
      keylookup[p.0] in lookup && (keylookup[p.1], bigrams[p]) in lookup[keylookup[p.0]]
    ensures forall i :: i in lookup ==> i < |keys| && lookup[i] != [] && DistinctTargets(lookup[i])
    ensures forall i, s :: i in lookup && s in lookup[i] ==>
      s.0 < |keys| && (keys[i], keys[s.0]) in bigrams && bigrams[(keys[i], keys[s.0])] == s.1
  {
    lookup := map[];
    var rest := bigrams.Keys;
    while rest != {}
      invariant rest <= bigrams.Keys
      invariant BigramsListed(bigrams, keylookup, lookup, bigrams.Keys - rest)
      invariant BigramsSound(bigrams, keys, lookup, rest)
      decreases rest
    {
      var p :| p in rest;
      BigramStep(bigrams, keylookup, keys, lookup, rest, p);
      lookup := Append(lookup, keylookup[p.0], (keylookup[p.1], bigrams[p]));
      rest := rest - {p};
    }
    assert bigrams.Keys - rest == bigrams.Keys;
    forall i | i in lookup ensures i < |keys| && lookup[i] != [] && DistinctTargets(lookup[i]) {
      assert BigramListSound(bigrams, keys, i, lookup[i], rest);
    }
  }

  /** Every trigram of `done` is listed under the index pair of its first two keystrokes. */
  ghost predicate TrigramsListed(trigrams: TrigramHeatmap, keylookup: map<Keystroke, nat>,
                                 lookup: map<(nat, nat), Successors>,
                                 done: set<(Keystroke, Keystroke, Keystroke)>)
  {
    forall t :: t in done && t in trigrams ==>
      t.0 in keylookup && t.1 in keylookup && t.2 in keylookup
      && (keylookup[t.0], keylookup[t.1]) in lookup
      && (keylookup[t.2], trigrams[t]) in lookup[(keylookup[t.0], keylookup[t.1])]
  }

  /**
   * The list `succ` of the index pair `ij` is non-empty, names each target
   * once, and each of its pairs is a trigram outside `rest`, with its count.
   */
  ghost predicate TrigramListSound(trigrams: TrigramHeatmap, keys: seq<Keystroke>, ij: (nat, nat),
                                   succ: Successors, rest: set<(Keystroke, Keystroke, Keystroke)>)
  {
    && ij.0 < |keys| && ij.1 < |keys| && succ != [] && DistinctTargets(succ)
    && forall s: (nat, nat) :: s in succ ==>
      && s.0 < |keys| && (keys[ij.0], keys[ij.1], keys[s.0]) in trigrams
      && (keys[ij.0], keys[ij.1], keys[s.0]) !in rest
      && trigrams[(keys[ij.0], keys[ij.1], keys[s.0])] == s.1
  }

  ghost predicate TrigramsSound(trigrams: TrigramHeatmap, keys: seq<Keystroke>,
                                lookup: map<(nat, nat), Successors>, rest: set<(Keystroke, Keystroke, Keystroke)>)
  {
    forall ij :: ij in lookup ==> TrigramListSound(trigrams, keys, ij, lookup[ij], rest)
  }

  /** One step of the trigram loop keeps both loop invariants. */
  lemma TrigramStep(trigrams: TrigramHeatmap, keylookup: map<Keystroke, nat>, keys: seq<Keystroke>,
                    lookup: map<(nat, nat), Successors>, rest: set<(Keystroke, Keystroke, Keystroke)>,
                    t: (Keystroke, Keystroke, Keystroke))
    requires Inverts(keylookup, keys)
    requires t in rest && rest <= trigrams.Keys && t.0 in keylookup && t.1 in keylookup && t.2 in keylookup
    requires TrigramsListed(trigrams, keylookup, lookup, trigrams.Keys - rest)
    requires TrigramsSound(trigrams, keys, lookup, rest)
    ensures TrigramsListed(trigrams, keylookup,
                           Append(lookup, (keylookup[t.0], keylookup[t.1]), (keylookup[t.2], trigrams[t])),
                           trigrams.Keys - (rest - {t}))
    ensures TrigramsSound(trigrams, keys,
                          Append(lookup, (keylookup[t.0], keylookup[t.1]), (keylookup[t.2], trigrams[t])),
                          rest - {t})
  {
    var index, pair := (keylookup[t.0], keylookup[t.1]), (keylookup[t.2], trigrams[t]);
    var entry := if index in lookup then lookup[index] else [];
    var r := Append(lookup, index, pair);
    forall s | s in entry ensures s.0 != pair.0 {
      assert (keys[index.0], keys[index.1], keys[s.0]) != t;
      assert keys[index.0] == t.0 && keys[index.1] == t.1 && keys[pair.0] == t.2;
    }
    AppendDistinct(entry, pair);
    forall q | q in trigrams.Keys - (rest - {t}) && q in trigrams
      ensures q.0 in keylookup && q.1 in keylookup && q.2 in keylookup
        && (keylookup[q.0], keylookup[q.1]) in r
        && (keylookup[q.2], trigrams[q]) in r[(keylookup[q.0], keylookup[q.1])]
    {
      if q != t {
        assert q in trigrams.Keys - rest;
        if (keylookup[q.0], keylookup[q.1]) == index {
          assert (keylookup[q.2], trigrams[q]) in entry;
        }
      }
    }
    forall ij | ij in r ensures TrigramListSound(trigrams, keys, ij, r[ij], rest - {t}) {
      if ij == index {
        forall s: (nat, nat) | s in r[ij]
          ensures s.0 < |keys| && (keys[ij.0], keys[ij.1], keys[s.0]) in trigrams
            && (keys[ij.0], keys[ij.1], keys[s.0]) !in rest - {t}
            && trigrams[(keys[ij.0], keys[ij.1], keys[s.0])] == s.1
        {
          if s == pair {
            assert (keys[ij.0], keys[ij.1], keys[s.0]) == t;
          } else {
            assert s in entry;
          }
        }
      } else {
        assert TrigramListSound(trigrams, keys, ij, lookup[ij], rest);
      }
    }
  }

  /**
   * `trigram_lookup` of `Generator::new`: for every trigram `((a, b, c), w)`
   * the pair `(index of c, w)` is appended to the list of the index pair of `(a, b)`.
   */
  method TrigramLookup(trigrams: TrigramHeatmap, keylookup: map<Keystroke, nat>, ghost keys: seq<Keystroke>)
    returns (lookup: map<(nat, nat), Successors>)
    requires forall t {:trigger t in trigrams} :: t in trigrams ==> t.0 in keylookup && t.1 in keylookup && t.2 in keylookup
    requires Inverts(keylookup, keys)
    ensures forall t {:trigger t in trigrams} :: t in trigrams ==>
      (keylookup[t.0], keylookup[t.1]) in lookup
      && (keylookup[t.2], trigrams[t]) in lookup[(keylookup[t.0], keylookup[t.1])]
    ensures forall ij {:trigger ij in lookup} :: ij in lookup ==>
      ij.0 < |keys| && ij.1 < |keys| && lookup[ij] != [] && DistinctTargets(lookup[ij])
    ensures forall ij, s {:trigger s in lookup[ij]} :: ij in lookup && s in lookup[ij] ==>
      s.0 < |keys| && (keys[ij.0], keys[ij.1], keys[s.0]) in trigrams
      && trigrams[(keys[ij.0], keys[ij.1], keys[s.0])] == s.1
  {
    lookup := map[];
    var rest := trigrams.Keys;
    while rest != {}
      invariant rest <= trigrams.Keys
      invariant TrigramsListed(trigrams, keylookup, lookup, trigrams.Keys - rest)
      invariant TrigramsSound(trigrams, keys, lookup, rest)
      decreases rest
    {
      var t :| t in rest;
      TrigramStep(trigrams, keylookup, keys, lookup, rest, t);
      lookup := Append(lookup, (keylookup[t.0], keylookup[t.1]), (keylookup[t.2], trigrams[t]));
      rest := rest - {t};
    }
    assert trigrams.Keys - rest == trigrams.Keys;
    forall ij | ij in lookup
      ensures ij.0 < |keys| && ij.1 < |keys| && lookup[ij] != [] && DistinctTargets(lookup[ij])
    {
      assert TrigramListSound(trigrams, keys, ij, lookup[ij], rest);
    }
  }

  /**
   * Add every pair's weight of `boosts` onto its target in `weights`, as
   * the `for_each(|(i, w)| weights[*i] += w)` loops of `generate_random_keystroke`.
   */
  method AddBoosts(weights: seq<nat>, boosts: Successors) returns (r: seq<nat>)
    requires TargetsBelow(boosts, |weights|)
    ensures |r| == |weights|
    ensures forall i :: 0 <= i < |r| ==> r[i] == weights[i] + BoostFor(boosts, i)
  {
    r := weights;
    for k := 0 to |boosts|
      invariant |r| == |weights|
      invariant forall i :: 0 <= i < |r| ==> r[i] == weights[i] + BoostFor(boosts[..k], i)
    {
      assert boosts[..k + 1][..k] == boosts[..k];
      var (i, w) := boosts[k];
      assert boosts[k] in boosts;
      r := r[i := r[i] + w];
    }
    assert boosts[..|boosts|] == boosts;
  }

  /**
   * The draw of `WeightedIndex::sample` given a uniform number `r` below the
   * total weight: the index whose slice of the prefix sums holds `r`. Such an
   * index always has a positive weight.
   */
  method WeightedPick(weights: seq<nat>, r: nat) returns (index: nat)
    requires r < Sum(weights)
    ensures index < |weights| && weights[index] > 0
    ensures Sum(weights[..index]) <= r < Sum(weights[..index + 1])
  {
    assert weights[..|weights|] == weights;
    index := 0;
    var acc := 0;
    SumPrefixStep(weights, 0);
    while acc + weights[index] <= r
      invariant index < |weights| && acc == Sum(weights[..index]) && acc <= r
      decreases |weights| - index
    {
      SumPrefixStep(weights, index);
      acc := acc + weights[index];
      index := index + 1;
      if index == |weights| {
        assert false;
      }
    }
    SumPrefixStep(weights, index);
  }

  /**
   * `keys` and `weights` lay the unigram table out densely: parallel lists,
   * each keystroke of the table exactly once, with its count.
   */
  ghost predicate DenseLayout(heatmap: KeystrokeHeatmap, keys: seq<Keystroke>, weights: seq<nat>) {
    && |keys| == |weights| && NoDuplicates(keys)
    && (forall k :: k in keys <==> k in heatmap)
    && (forall i :: 0 <= i < |keys| ==> weights[i] == heatmap[keys[i]])
  }

  /**
   * `lookup` holds exactly the bigrams, by dense index: `(b, w)` is listed
   * under `a` if and only if `(keys[a], keys[b])` has count `w`, and no list
   * names a target twice.
   */
  ghost predicate BigramsIndexed(bigrams: BigramHeatmap, keys: seq<Keystroke>, lookup: map<nat, Successors>) {
    && (forall a, b ::
          (0 <= a < |keys| && 0 <= b < |keys| && (keys[a], keys[b]) in bigrams) ==>
          a in lookup && (b, bigrams[(keys[a], keys[b])]) in lookup[a])
    && (forall i, s :: i in lookup && s in lookup[i] ==>
          i < |keys| && s.0 < |keys|
          && (keys[i], keys[s.0]) in bigrams && bigrams[(keys[i], keys[s.0])] == s.1)
    && (forall i :: i in lookup ==> DistinctTargets(lookup[i]))
  }

  /**
   * `lookup` holds exactly the trigrams, by dense index: `(c, w)` is listed
   * under `(a, b)` if and only if `(keys[a], keys[b], keys[c])` has count `w`.
   */
  ghost predicate TrigramsIndexed(trigrams: TrigramHeatmap, keys: seq<Keystroke>,
                                  lookup: map<(nat, nat), Successors>) {
    && (forall a, b, c ::
          (0 <= a < |keys| && 0 <= b < |keys| && 0 <= c < |keys|
           && (keys[a], keys[b], keys[c]) in trigrams) ==>
          (a, b) in lookup && (c, trigrams[(keys[a], keys[b], keys[c])]) in lookup[(a, b)])
    && (forall ij, s {:trigger s in lookup[ij]} :: ij in lookup && s in lookup[ij] ==>
          ij.0 < |keys| && ij.1 < |keys| && s.0 < |keys|
          && (keys[ij.0], keys[ij.1], keys[s.0]) in trigrams
          && trigrams[(keys[ij.0], keys[ij.1], keys[s.0])] == s.1)
    && (forall ij :: ij in lookup ==> DistinctTargets(lookup[ij]))
  }

  /** What `BigramLookup` promises, restated by dense index once `keylookup` is the exact inverse of `keys`. */
  lemma BigramsByIndex(bigrams: BigramHeatmap, keylookup: map<Keystroke, nat>, keys: seq<Keystroke>,
                       lookup: map<nat, Successors>)
    requires forall i :: 0 <= i < |keys| ==> keys[i] in keylookup && keylookup[keys[i]] == i
    requires forall p :: p in bigrams ==>
      p.0 in keylookup && p.1 in keylookup
      && keylookup[p.0] in lookup && (keylookup[p.1], bigrams[p]) in lookup[keylookup[p.0]]
    requires forall i :: i in lookup ==> i < |keys| && lookup[i] != [] && DistinctTargets(lookup[i])
    requires forall i, s :: i in lookup && s in lookup[i] ==>
      s.0 < |keys| && (keys[i], keys[s.0]) in bigrams && bigrams[(keys[i], keys[s.0])] == s.1
    ensures BigramsIndexed(bigrams, keys, lookup)
  {
    forall a, b | 0 <= a < |keys| && 0 <= b < |keys| && (keys[a], keys[b]) in bigrams
      ensures a in lookup && (b, bigrams[(keys[a], keys[b])]) in lookup[a]
    {
      var p := (keys[a], keys[b]);
      assert keylookup[p.0] == a && keylookup[p.1] == b;
    }
  }

  /** What `TrigramLookup` promises, restated by dense index. */
  lemma TrigramsByIndex(trigrams: TrigramHeatmap, keylookup: map<Keystroke, nat>, keys: seq<Keystroke>,
                        lookup: map<(nat, nat), Successors>)
    requires forall i :: 0 <= i < |keys| ==> keys[i] in keylookup && keylookup[keys[i]] == i
    requires forall t {:trigger t in trigrams} :: t in trigrams ==>
      t.0 in keylookup && t.1 in keylookup && t.2 in keylookup
      && (keylookup[t.0], keylookup[t.1]) in lookup
      && (keylookup[t.2], trigrams[t]) in lookup[(keylookup[t.0], keylookup[t.1])]
    requires forall ij {:trigger ij in lookup} :: ij in lookup ==>
      ij.0 < |keys| && ij.1 < |keys| && lookup[ij] != [] && DistinctTargets(lookup[ij])
    requires forall ij, s {:trigger s in lookup[ij]} :: ij in lookup && s in lookup[ij] ==>
      s.0 < |keys| && (keys[ij.0], keys[ij.1], keys[s.0]) in trigrams
      && trigrams[(keys[ij.0], keys[ij.1], keys[s.0])] == s.1
    ensures TrigramsIndexed(trigrams, keys, lookup)
  {
    forall a, b, c | 0 <= a < |keys| && 0 <= b < |keys| && 0 <= c < |keys| && (keys[a], keys[b], keys[c]) in trigrams
      ensures (a, b) in lookup && (c, trigrams[(keys[a], keys[b], keys[c])]) in lookup[(a, b)]
    {
      var t := (keys[a], keys[b], keys[c]);
      assert keylookup[t.0] == a && keylookup[t.1] == b && keylookup[t.2] == c;
    }
  }

  /**
   * The tables of `Generator::new` (its lines before the `Generator` value
   * is assembled): the dense layout of the unigrams, then the bigram and
   * trigram continuation lists by index.
   */
  method DenseTables(heatmap: KeystrokeHeatmap, bigrams: BigramHeatmap, trigrams: TrigramHeatmap)
    returns (keys: seq<Keystroke>, weights: seq<nat>,
             bigramLookup: map<nat, Successors>, trigramLookup: map<(nat, nat), Successors>)
    requires forall p :: p in bigrams ==> p.0 in heatmap && p.1 in heatmap
    requires forall t {:trigger t in trigrams} :: t in trigrams ==> t.0 in heatmap && t.1 in heatmap && t.2 in heatmap
    ensures DenseLayout(heatmap, keys, weights)
    ensures BigramsIndexed(bigrams, keys, bigramLookup)
    ensures TrigramsIndexed(trigrams, keys, trigramLookup)
    ensures forall i :: i in bigramLookup ==> TargetsBelow(bigramLookup[i], |keys|)
    ensures forall ij :: ij in trigramLookup ==> TargetsBelow(trigramLookup[ij], |keys|)
  {
    keys, weights := Unzip(heatmap);
    var keylookup := KeyLookup(keys);
    bigramLookup := IndexBigrams(bigrams, keylookup, keys);
    trigramLookup := IndexTrigrams(trigrams, keylookup, keys);
  }

  /** The bigram continuation lists of `Generator::new`, stated by dense index. */
  method IndexBigrams(bigrams: BigramHeatmap, keylookup: map<Keystroke, nat>, ghost keys: seq<Keystroke>)
    returns (lookup: map<nat, Successors>)
    requires forall i :: 0 <= i < |keys| ==> keys[i] in keylookup && keylookup[keys[i]] == i
    requires Inverts(keylookup, keys)
    requires forall p :: p in bigrams ==> p.0 in keylookup && p.1 in keylookup
    ensures BigramsIndexed(bigrams, keys, lookup)
    ensures forall i :: i in lookup ==> TargetsBelow(lookup[i], |keys|)
  {
    lookup := BigramLookup(bigrams, keylookup, keys);
    BigramsByIndex(bigrams, keylookup, keys, lookup);
  }

  /** The trigram continuation lists of `Generator::new`, stated by dense index. */
  method IndexTrigrams(trigrams: TrigramHeatmap, keylookup: map<Keystroke, nat>, ghost keys: seq<Keystroke>)
    returns (lookup: map<(nat, nat), Successors>)
    requires forall i :: 0 <= i < |keys| ==> keys[i] in keylookup && keylookup[keys[i]] == i
    requires Inverts(keylookup, keys)
    requires forall t {:trigger t in trigrams} :: t in trigrams ==> t.0 in keylookup && t.1 in keylookup && t.2 in keylookup
    ensures TrigramsIndexed(trigrams, keys, lookup)
    ensures forall ij :: ij in lookup ==> TargetsBelow(lookup[ij], |keys|)
  {
    lookup := TrigramLookup(trigrams, keylookup, keys);
    TrigramsByIndex(trigrams, keylookup, keys, lookup);
  }

  /** `Generator`: the dense tables built once from the heatmaps, and the two-slot history. */
  class Generator {
    /** Every unigram keystroke, once each. */
    const keystrokes: seq<Keystroke>
    /** The unigram count of each keystroke, by position. */
    const weights: seq<nat>
    /** For a keystroke's index, the (next index, bigram count) continuations. */
    const bigramLookup: map<nat, Successors>
    /** For an (older, newer) index pair, the (next index, trigram count) continuations. */
    const trigramLookup: map<(nat, nat), Successors>
    /** The indices of the last two generated keystrokes, newest first. */
    const preceeding: array<Option<nat>>
    /** The three tables the generator was built from. */
    ghost const heatmap: KeystrokeHeatmap
    ghost const bigrams: BigramHeatmap
    ghost const trigrams: TrigramHeatmap

    /**
     * The dense tables are exactly the tables the generator was built from.
     * Only constants take part, so this holds for the generator's whole life.
     */
    ghost predicate Built()
      reads this
    {
      && DenseLayout(heatmap, keystrokes, weights)
      && BigramsIndexed(bigrams, keystrokes, bigramLookup)
      && TrigramsIndexed(trigrams, keystrokes, trigramLookup)
    }

    /**
     * Every index a lookup lists, and every index of the history, is a
     * position of `keystrokes`; a second preceding index only exists
     * alongside a first (the `unwrap` of `generate_random_keystroke` relies on it).
     */
    ghost predicate Valid()
      reads this, preceeding
    {
      && preceeding.Length == 2
      && |weights| == |keystrokes|
      && (forall i :: i in bigramLookup ==> TargetsBelow(bigramLookup[i], |keystrokes|))
      && (forall ij :: ij in trigramLookup ==> TargetsBelow(trigramLookup[ij], |keystrokes|))
      && (preceeding[0].Some? ==> preceeding[0].value < |keystrokes|)
      && (preceeding[1].Some? ==> preceeding[0].Some? && preceeding[1].value < |keystrokes|)
    }

    /** The bigram continuations of the last generated keystroke, if any. */
    ghost function BigramBoosts(): Successors
      reads this, preceeding
      requires Valid()
    {
      if preceeding[0].Some? && preceeding[0].value in bigramLookup
      then bigramLookup[preceeding[0].value] else []
    }

    /** The trigram continuations of the last two generated keystrokes, if there are two. */
    ghost function TrigramBoosts(): Successors
      reads this, preceeding
      requires Valid()
    {
      if preceeding[1].Some? && (preceeding[1].value, preceeding[0].value) in trigramLookup
      then trigramLookup[(preceeding[1].value, preceeding[0].value)] else []
    }

    /** The weights of the next draw: each base weight plus the boosts that target it. */
    ghost function Boosted(): (ws: seq<nat>)
      reads this, preceeding
      requires Valid()
      ensures |ws| == |weights|
    {
      var bigramBoosts, trigramBoosts := BigramBoosts(), TrigramBoosts();
      seq(|weights|, i requires 0 <= i < |weights| reads this =>
        weights[i] + BoostFor(bigramBoosts, i) + BoostFor(trigramBoosts, i))
    }

    /**
     * `Generator::new`. Every bigram and trigram participant must be a
     * unigram keystroke: the source indexes `keylookup` with them and panics otherwise.
     */
    constructor (heatmap: KeystrokeHeatmap, bigrams: BigramHeatmap, trigrams: TrigramHeatmap)
      requires forall p :: p in bigrams ==> p.0 in heatmap && p.1 in heatmap
      requires forall t {:trigger t in trigrams} :: t in trigrams ==> t.0 in heatmap && t.1 in heatmap && t.2 in heatmap
      ensures Valid() && Built() && fresh(preceeding)
      ensures preceeding[0] == None && preceeding[1] == None
      ensures this.heatmap == heatmap && this.bigrams == bigrams && this.trigrams == trigrams
    {
      var keys, ws, bl, tl := DenseTables(heatmap, bigrams, trigrams);
      keystrokes := keys;
      weights := ws;
      bigramLookup := bl;
      trigramLookup := tl;
      preceeding := new Option<nat>[2] [None, None];
      this.heatmap, this.bigrams, this.trigrams := heatmap, bigrams, trigrams;
    }

    /** The weight vector of the next draw, computed as the source does, from a copy of the base weights. */
    method BoostedWeights() returns (ws: seq<nat>)
      requires Valid()
      ensures |ws| == |weights|
      ensures forall i :: 0 <= i < |ws| ==>
        ws[i] == weights[i] + BoostFor(BigramBoosts(), i) + BoostFor(TrigramBoosts(), i)
    {
      ws := weights;
      var bigramBoosts: Successors := [];
      if preceeding[0].Some? {
        bigramBoosts := if preceeding[0].value in bigramLookup then bigramLookup[preceeding[0].value] else [];
      }
      ws := AddBoosts(ws, bigramBoosts);
      var trigramBoosts: Successors := [];
      if preceeding[1].Some? {
        var index := (preceeding[1].value, preceeding[0].value);
        trigramBoosts := if index in trigramLookup then trigramLookup[index] else [];
      }
      ws := AddBoosts(ws, trigramBoosts);
    }

    /**
     * `Generator::generate_random_keystroke`, with `r` the uniform number
     * below the total boosted weight that the random generator supplies.
     * The source panics when the weights sum to 0, which `r` rules out.
     */
    method GenerateRandomKeystroke(r: nat) returns (ks: Keystroke)
      requires Valid() && r < Sum(Boosted())
      modifies preceeding
      ensures Valid()
      ensures preceeding[1] == old(preceeding[0]) && preceeding[0].Some?
      ensures var index := preceeding[0].value;
        && index < |keystrokes| && ks == keystrokes[index]
        && old(Boosted())[index] > 0
        && Sum(old(Boosted())[..index]) <= r < Sum(old(Boosted())[..index + 1])
    {
      var ws := BoostedWeights();
      assert ws == Boosted();
      var index := WeightedPick(ws, r);
      preceeding[1] := preceeding[0];
      preceeding[0] := Some(index);
      ks := keystrokes[index];
    }

    /** `Iterator::next`: the sequence never ends; every call yields a keystroke. */
    method Next(r: nat) returns (item: Option<Keystroke>)
      requires Valid() && r < Sum(Boosted())
      modifies preceeding
      ensures Valid()
      ensures preceeding[1] == old(preceeding[0]) && preceeding[0].Some?
      ensures var index := preceeding[0].value;
        && index < |keystrokes| && item == Some(keystrokes[index])
        && old(Boosted())[index] > 0
        && Sum(old(Boosted())[..index]) <= r < Sum(old(Boosted())[..index + 1])
    {
      var ks := GenerateRandomKeystroke(r);
      item := Some(ks);
    }
  }

  /** With no bigram or trigram recorded, every draw uses the plain unigram weights. */
  lemma NoBoostWithoutNgrams(g: Generator)
    requires g.Valid() && g.Built() && g.bigrams == map[] && g.trigrams == map[]
    ensures g.Boosted() == g.weights
  {
    var bb, tb := g.BigramBoosts(), g.TrigramBoosts();
    var ws := g.Boosted();
    forall i | 0 <= i < |ws| ensures ws[i] == g.weights[i] {
      BoostForAbsent(bb, i);
      BoostForAbsent(tb, i);
    }
    assert forall i :: 0 <= i < |ws| ==> ws[i] == g.weights[i];
  }

  /**
   * After keystroke `a` was generated, every bigram `(a, b)` raises the
   * weight of `b` by exactly its count, on top of `b`'s unigram count and
   * the trigram boosts for `b`.
   */
  lemma BigramBoostApplied(g: Generator, a: nat, b: nat)
    requires g.Valid() && g.Built() && g.preceeding[0] == Some(a)
    requires a < |g.keystrokes| && b < |g.keystrokes| && (g.keystrokes[a], g.keystrokes[b]) in g.bigrams
    ensures g.Boosted()[b]
         == g.weights[b] + g.bigrams[(g.keystrokes[a], g.keystrokes[b])] + BoostFor(g.TrigramBoosts(), b)
  {
    var w := g.bigrams[(g.keystrokes[a], g.keystrokes[b])];
    var succ := g.bigramLookup[a];
    assert (b, w) in succ;
    var j :| 0 <= j < |succ| && succ[j] == (b, w);
    BoostForSingle(succ, j);
  }

  /**
   * After `a` then `b` were generated, every trigram `(a, b, c)` raises the
   * weight of `c` by exactly its count, on top of the unigram and bigram weights.
   */
  lemma TrigramBoostApplied(g: Generator, a: nat, b: nat, c: nat)
    requires g.Valid() && g.Built() && g.preceeding[1] == Some(a) && g.preceeding[0] == Some(b)
    requires a < |g.keystrokes| && b < |g.keystrokes| && c < |g.keystrokes|
    requires (g.keystrokes[a], g.keystrokes[b], g.keystrokes[c]) in g.trigrams
    ensures g.Boosted()[c]
         == g.weights[c] + BoostFor(g.BigramBoosts(), c)
            + g.trigrams[(g.keystrokes[a], g.keystrokes[b], g.keystrokes[c])]
  {
    var w := g.trigrams[(g.keystrokes[a], g.keystrokes[b], g.keystrokes[c])];
    var succ := g.trigramLookup[(a, b)];
    assert (c, w) in succ;
    var j :| 0 <= j < |succ| && succ[j] == (c, w);
    BoostForSingle(succ, j);
  }

  /** After keystroke `a`, a keystroke `b` that never followed `a` gets no bigram boost. */
  lemma BigramBoostAbsent(g: Generator, a: nat, b: nat)
    requires g.Valid() && g.Built() && g.preceeding[0] == Some(a)
    requires a < |g.keystrokes| && b < |g.keystrokes| && (g.keystrokes[a], g.keystrokes[b]) !in g.bigrams
    ensures BoostFor(g.BigramBoosts(), b) == 0
  {
    BoostForAbsent(g.BigramBoosts(), b);
  }

  /** After `a` then `b`, a keystroke `c` that never followed that pair gets no trigram boost. */
  lemma TrigramBoostAbsent(g: Generator, a: nat, b: nat, c: nat)
    requires g.Valid() && g.Built() && g.preceeding[1] == Some(a) && g.preceeding[0] == Some(b)
    requires a < |g.keystrokes| && b < |g.keystrokes| && c < |g.keystrokes|
    requires (g.keystrokes[a], g.keystrokes[b], g.keystrokes[c]) !in g.trigrams
    ensures BoostFor(g.TrigramBoosts(), c) == 0
  {
    BoostForAbsent(g.TrigramBoosts(), c);
  }

  /**
   * After `a` then `b`, the draw weight of every keystroke `c` is its
   * unigram count plus its bigram count after `b` plus its trigram count
   * after `a, b` (each 0 when never seen).
   */
  lemma BoostedWeightExact(g: Generator, a: nat, b: nat, c: nat)
    requires g.Valid() && g.Built() && g.preceeding[1] == Some(a) && g.preceeding[0] == Some(b)
    requires a < |g.keystrokes| && b < |g.keystrokes| && c < |g.keystrokes|
    ensures g.Boosted()[c]
         == g.heatmap[g.keystrokes[c]]
            + Tally.Count(g.bigrams, (g.keystrokes[b], g.keystrokes[c]))
            + Tally.Count(g.trigrams, (g.keystrokes[a], g.keystrokes[b], g.keystrokes[c]))
  {
    if (g.keystrokes[b], g.keystrokes[c]) in g.bigrams {
      BigramBoostApplied(g, b, c);
    } else {
      BigramBoostAbsent(g, b, c);
    }
    if (g.keystrokes[a], g.keystrokes[b], g.keystrokes[c]) in g.trigrams {
      TrigramBoostApplied(g, a, b, c);
    } else {
      TrigramBoostAbsent(g, a, b, c);
    }
  }

  /**
   * A generator built from a non-empty unigram table with positive counts
   * (as the statistics store keeps them) can always draw: the boosted weights
   * have a positive sum, so `WeightedIndex::new` succeeds.
   */
  lemma DrawPossible(g: Generator)
    requires g.Valid() && g.Built() && g.heatmap != map[]
    requires forall k :: k in g.heatmap ==> g.heatmap[k] > 0
    ensures Sum(g.Boosted()) > 0
  {
    var k :| k in g.heatmap;
    assert k in g.keystrokes;
    var i :| 0 <= i < |g.keystrokes| && g.keystrokes[i] == k;
    WeightBelowSum(g.Boosted(), i);
  }
}
