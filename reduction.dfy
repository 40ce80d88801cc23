/** `reducePackages`: collapses an unreduced set of patterns into the app
    regex. Exact patterns pass through; wildcard patterns are put into a
    trie keyed by their text, and every key that has another key as a
    literal string prefix is marked deleted. The trie is a map from key to
    the stored `Regex`; its `prefixMap(k)` is the sub-map of keys starting
    with `k`. */
module Reduction {
  import opened JavaString
  import opened Patterns

  /** The texts of the exact patterns, which go straight into the result. */
  function ExactTexts(packages: set<Regex>): set<string> {
    set r | r in packages && !r.isWildcard :: r.text
  }

  /** The keys the wildcard patterns are put under in the trie. */
  function WildcardKeys(packages: set<Regex>): set<string> {
    set r | r in packages && r.isWildcard :: r.text
  }

  /** Some key of `keys` other than `k` is a literal string prefix of `k`:
      the prefix test is not aware of package-segment boundaries. */
  predicate Covered(k: string, keys: set<string>) {
    exists j :: j in keys && j != k && StartsWith(k, j)
  }

  /** The keys no other key covers: a key is kept exactly when it is the
      only key of `keys` that is a literal prefix of it. */
  function Survivors(keys: set<string>): set<string> {
    set k | k in keys && !Covered(k, keys)
  }

  /** Wildcard keys as the result lists them, each followed by ".*". */
  function Rendering(keys: set<string>): set<string> {
    set k | k in keys :: k + ".*"
  }

  /** The app regex of a set of patterns: every exact text, and every
      surviving wildcard key followed by ".*". */
  function Reduced(packages: set<Regex>): set<string> {
    ExactTexts(packages) + Rendering(Survivors(WildcardKeys(packages)))
  }

  /** `trie.prefixMap(prefix)`: the entries whose key starts with `prefix`. */
  function PrefixMap(trie: map<string, Regex>, prefix: string): (m: map<string, Regex>)
    ensures forall k :: k in m <==> k in trie && StartsWith(k, prefix)
    ensures forall k :: k in m ==> m[k] == trie[k]
  {
    map k | k in trie && StartsWith(k, prefix) :: trie[k]
  }

  /** A prefix map holding its own prefix has more than one entry exactly
      when it holds some other key. */
  lemma PrefixMapSize(m: map<string, Regex>, prefix: string)
    requires prefix in m
    ensures |m| > 1 <==> exists k :: k in m && k != prefix
  {
    if k :| k in m && k != prefix {
      assert m.Keys == {prefix, k} + (m.Keys - {prefix, k});
      assert |{prefix, k}| == 2;
    } else {
      assert m.Keys == {prefix};
    }
  }

  /** The trie entries are the stored wildcard patterns, each under its own text. */
  ghost predicate TrieKeyed(trie: map<string, Regex>) {
    forall k :: k in trie ==> trie[k].text == k && trie[k].isWildcard
  }

  /** Exactly the entries whose key some key of `coverers` covers are deleted. */
  ghost predicate DeletedIffCovered(trie: map<string, Regex>, coverers: set<string>) {
    forall k :: k in trie ==> (trie[k].deleted <==> Covered(k, coverers))
  }

  /** `reducePackages`. The trie is reducer-local, so the `deleted` flags it
      flips on its stored values are invisible to the caller. */
  method ReducePackages(packages: set<Regex>) returns (ret: set<string>)
    requires forall r :: r in packages ==> !r.deleted
    ensures ret == Reduced(packages)
  {
    ret := {};
    var trie: map<string, Regex> := map[];
    // Exact regexes go into the result; wildcards are put into the trie.
    var todo := packages;
    ghost var done: set<Regex> := {};
    while todo != {}
      invariant done + todo == packages
      invariant ret == ExactTexts(done)
      invariant trie.Keys == WildcardKeys(done)
      invariant forall k :: k in trie ==> trie[k] == Regex.Prefix(k)
      decreases todo
    {
      var r :| r in todo;
      Partition(done, r);
      if r.isWildcard {
        trie := trie[r.text := r];
      } else {
        ret := ret + {r.ToString()};
      }
      done := done + {r};
      todo := todo - {r};
    }

    // Every key marks as deleted the other keys that start with it.
    ghost var keys := trie.Keys;
    trie := MarkCovered(trie);

    // The entries not deleted are rendered and added.
    ret := AddUndeleted(ret, trie);
    SurvivingValues(trie, keys);
  }

  /** The last loop of `reducePackages`: adds the rendering of every trie
      value not marked deleted to `ret`. */
  method AddUndeleted(ret: set<string>, trie: map<string, Regex>) returns (result: set<string>)
    ensures result == ret + RenderedUndeleted(trie.Values)
  {
    result := ret;
    var remaining := trie.Values;
    ghost var seen: set<Regex> := {};
    while remaining != {}
      invariant seen + remaining == trie.Values
      invariant result == ret + RenderedUndeleted(seen)
      decreases remaining
    {
      var r :| r in remaining;
      RenderedUndeletedAdd(seen, r);
      if !r.deleted {
        result := result + {r.ToString()};
      }
      seen := seen + {r};
      remaining := remaining - {r};
    }
  }

  /** The traversal of `reducePackages` over the trie's entries: for every
      key whose prefix map holds more than one entry, the other entries are
      marked deleted. Afterwards exactly the covered keys are deleted. */
  method MarkCovered(trie: map<string, Regex>) returns (marked: map<string, Regex>)
    requires TrieKeyed(trie) && forall k :: k in trie ==> !trie[k].deleted
    ensures marked.Keys == trie.Keys && TrieKeyed(marked)
    ensures DeletedIffCovered(marked, trie.Keys)
  {
    marked := trie;
    ghost var keys := trie.Keys;
    var pending := trie.Keys;
    while pending != {}
      invariant pending <= keys && marked.Keys == keys && TrieKeyed(marked)
      invariant DeletedIffCovered(marked, keys - pending)
      decreases pending
    {
      var prefix :| prefix in pending;
      var prefixMap := PrefixMap(marked, prefix);
      ghost var before := marked;
      if |prefixMap| > 1 {
        marked := MarkOthersDeleted(marked, prefixMap, prefix);
      }
      MarkStep(before, marked, keys, pending, prefix);
      pending := pending - {prefix};
    }
    assert keys - pending == keys;
  }

  /** `prefixMap.entrySet().stream().filter(...).forEach(...)`: sets the
      `deleted` flag of every entry of `prefixMap` except `prefix` itself;
      nothing else in the trie changes. */
  method MarkOthersDeleted(trie: map<string, Regex>, prefixMap: map<string, Regex>, prefix: string)
    returns (marked: map<string, Regex>)
    requires prefixMap.Keys <= trie.Keys
    ensures marked.Keys == trie.Keys
    ensures forall k :: k in marked ==>
      && marked[k].text == trie[k].text && marked[k].isWildcard == trie[k].isWildcard
      && (marked[k].deleted <==> trie[k].deleted || (k in prefixMap && k != prefix))
  {
    marked := trie;
    var entries := prefixMap.Keys;
    while entries != {}
      invariant entries <= prefixMap.Keys
      invariant marked.Keys == trie.Keys
      invariant forall k :: k in marked ==>
        marked[k] == if k in prefixMap && k !in entries && k != prefix then trie[k].(deleted := true) else trie[k]
      decreases entries
    {
      var entry :| entry in entries;
      if entry != prefix {
        marked := marked[entry := marked[entry].(deleted := true)];
      }
      entries := entries - {entry};
    }
  }

  /** What one round of the marking loop achieves: after `prefix` has been
      processed, exactly the keys covered by a processed key are deleted. */
  lemma MarkStep(before: map<string, Regex>, after: map<string, Regex>,
                 keys: set<string>, pending: set<string>, prefix: string)
    requires prefix in pending && pending <= keys && before.Keys == keys && TrieKeyed(before)
    requires DeletedIffCovered(before, keys - pending)
    requires |PrefixMap(before, prefix)| <= 1 ==> after == before
    requires |PrefixMap(before, prefix)| > 1 ==>
      && after.Keys == keys
      && forall k :: k in after ==>
        && after[k].text == before[k].text && after[k].isWildcard == before[k].isWildcard
        && (after[k].deleted <==> before[k].deleted || (k in PrefixMap(before, prefix) && k != prefix))
    ensures after.Keys == keys && TrieKeyed(after)
    ensures DeletedIffCovered(after, keys - (pending - {prefix}))
  {
    var prefixMap := PrefixMap(before, prefix);
    assert StartsWith(prefix, prefix);
    PrefixMapSize(prefixMap, prefix);
    assert keys - (pending - {prefix}) == (keys - pending) + {prefix};
    forall k | k in after
      ensures after[k].deleted <==> Covered(k, keys - (pending - {prefix}))
    {
      CoveredStep(k, keys - pending, prefix);
    }
  }

  /** Adding one pattern to the part already partitioned. */
  lemma Partition(done: set<Regex>, r: Regex)
    ensures ExactTexts(done + {r}) == ExactTexts(done) + (if r.isWildcard then {} else {r.text})
    ensures WildcardKeys(done + {r}) == WildcardKeys(done) + (if r.isWildcard then {r.text} else {})
  {
  }

  /** Processing `prefix` covers the keys it is a proper prefix of. */
  lemma CoveredStep(k: string, done: set<string>, prefix: string)
    ensures Covered(k, done + {prefix}) <==> Covered(k, done) || (k != prefix && StartsWith(k, prefix))
  {
  }

  /** The renderings of the values not deleted. */
  function RenderedUndeleted(values: set<Regex>): set<string> {
    set v | v in values && !v.deleted :: v.ToString()
  }

  lemma RenderedUndeletedAdd(done: set<Regex>, r: Regex)
    ensures RenderedUndeleted(done + {r}) == RenderedUndeleted(done) + (if r.deleted then {} else {r.ToString()})
  {
  }

  /** The rendered values not deleted are the surviving keys with ".*". */
  lemma SurvivingValues(trie: map<string, Regex>, keys: set<string>)
    requires trie.Keys == keys && TrieKeyed(trie)
    requires DeletedIffCovered(trie, keys)
    ensures RenderedUndeleted(trie.Values) == Rendering(Survivors(keys))
  {
    var l := RenderedUndeleted(trie.Values);
    var r := Rendering(Survivors(keys));
    forall s | s in l ensures s in r {
      var v :| v in trie.Values && !v.deleted && s == v.ToString();
      var k :| k in trie && trie[k] == v;
      assert k in Survivors(keys);
    }
    forall s | s in r ensures s in l {
      var k :| k in Survivors(keys) && s == k + ".*";
      assert trie[k] in trie.Values;
    }
  }
}

/** What the app regex promises, proved about its characterisation. */
module ReductionProperties {
  import opened JavaString
  import opened Patterns
  import opened Reduction

  lemma StartsWithTransitive(a: string, b: string, c: string)
    requires StartsWith(a, b) && StartsWith(b, c)
    ensures StartsWith(a, c)
  {
    assert a[..|c|] == a[..|b|][..|c|];
  }

  /** Every key has a surviving key as a literal prefix (possibly itself):
      the shortest key of its chain of nested prefixes. */
  lemma {:induction false} CoveredBySurvivor(keys: set<string>, k: string)
    requires k in keys
    ensures exists s :: s in Survivors(keys) && StartsWith(k, s)
    decreases |k|
  {
    if !Covered(k, keys) {
      assert k[..|k|] == k;
      assert k in Survivors(keys);
    } else {
      var j :| j in keys && j != k && StartsWith(k, j);
      assert k[..|k|] == k;
      CoveredBySurvivor(keys, j);
      var s :| s in Survivors(keys) && StartsWith(j, s);
      StartsWithTransitive(k, j, s);
    }
  }

  /** Coverage: every exact input is in the app regex unchanged, and every
      wildcard input is matched by a surviving wildcard whose key is a
      literal prefix of its own. */
  lemma ReducedCovers(packages: set<Regex>)
    ensures forall r :: r in packages && !r.isWildcard ==> r.text in Reduced(packages)
    ensures forall r :: r in packages && r.isWildcard ==>
      exists s :: s in Survivors(WildcardKeys(packages)) && StartsWith(r.text, s) && s + ".*" in Reduced(packages)
  {
    var keys := WildcardKeys(packages);
    forall r | r in packages && r.isWildcard
      ensures exists s :: s in Survivors(keys) && StartsWith(r.text, s) && s + ".*" in Reduced(packages)
    {
      assert r.text in keys;
      CoveredBySurvivor(keys, r.text);
    }
  }

  /** Minimality: no surviving key is a literal prefix of another. */
  lemma SurvivorsIndependent(keys: set<string>)
    ensures forall a, b :: a in Survivors(keys) && b in Survivors(keys) && StartsWith(b, a) ==> a == b
  {
  }

  /** An exact pattern goes into the app regex as it is, whatever wildcards
      stand beside it, and changes nothing else. */
  lemma ReducedWithExact(packages: set<Regex>, t: string)
    ensures Reduced(packages + {Regex.Exact(t)}) == Reduced(packages) + {t}
  {
    var more := packages + {Regex.Exact(t)};
    assert ExactTexts(more) == ExactTexts(packages) + {t};
    assert WildcardKeys(more) == WildcardKeys(packages);
  }

  /** Reducing the survivors again changes nothing. */
  lemma SurvivorsIdempotent(keys: set<string>)
    ensures Survivors(Survivors(keys)) == Survivors(keys)
  {
    forall k | k in Survivors(keys) ensures k in Survivors(Survivors(keys)) {
      assert !Covered(k, Survivors(keys));
    }
  }

  /** A key that already has a literal prefix among the keys is absorbed:
      putting it into the trie leaves the surviving keys as they were. */
  lemma CoveredKeyAbsorbed(keys: set<string>, k: string, j: string)
    requires j in keys && StartsWith(k, j)
    ensures Survivors(keys + {k}) == Survivors(keys)
  {
    if k !in keys {
      assert j != k;
      forall s | s in keys && Covered(s, keys + {k}) ensures Covered(s, keys) {
        var i :| i in keys + {k} && i != s && StartsWith(s, i);
        if i == k {
          StartsWithTransitive(s, k, j);
          assert s[..|s|] == s && k[..|k|] == k;
          assert j != s;
        }
      }
      assert Covered(k, keys + {k});
    }
  }

  /** Two keys neither of which starts with the other both survive. */
  lemma UnrelatedKeysSurvive(a: string, b: string)
    requires !StartsWith(a, b) && !StartsWith(b, a)
    ensures Survivors({a, b}) == {a, b}
  {
    assert !Covered(a, {a, b}) && !Covered(b, {a, b});
  }

  /** Of two keys where one starts with the other, only the shorter survives. */
  lemma ExtendedKeyDropped(a: string, b: string)
    requires a != b && StartsWith(b, a)
    ensures Survivors({a, b}) == {a}
  {
    assert Covered(b, {a, b});
    assert !StartsWith(a, b);
    assert !Covered(a, {a, b});
  }

  lemma RenderingOfTwo(a: string, b: string)
    ensures Rendering({a}) == {a + ".*"}
    ensures Rendering({a, b}) == {a + ".*", b + ".*"}
  {
    assert a + ".*" in Rendering({a});
    assert a + ".*" in Rendering({a, b}) && b + ".*" in Rendering({a, b});
  }

  lemma SubsetCard<T>(a: set<T>, b: set<T>)
    requires a <= b
    ensures |a| <= |b|
  {
    assert b == a + (b - a);
    assert a * (b - a) == {};
  }

  function Texts(s: set<Regex>): set<string> {
    set r | r in s :: r.text
  }

  lemma {:induction false} TextsCard(s: set<Regex>)
    ensures |Texts(s)| <= |s|
    decreases |s|
  {
    if s != {} {
      var x :| x in s;
      TextsCard(s - {x});
      assert Texts(s) <= Texts(s - {x}) + {x.text};
      SubsetCard(Texts(s), Texts(s - {x}) + {x.text});
    }
  }

  lemma {:induction false} RenderingCard(keys: set<string>)
    ensures |Rendering(keys)| <= |keys|
    decreases |keys|
  {
    if keys != {} {
      var x :| x in keys;
      RenderingCard(keys - {x});
      assert Rendering(keys) <= Rendering(keys - {x}) + {x + ".*"};
      SubsetCard(Rendering(keys), Rendering(keys - {x}) + {x + ".*"});
    }
  }

  /** The app regex never has more entries than there are distinct exact
      texts and wildcard keys, and so never more than distinct inputs. */
  lemma ReducedSize(packages: set<Regex>)
    ensures |Reduced(packages)| <= |ExactTexts(packages)| + |WildcardKeys(packages)| <= |packages|
  {
    var keys := WildcardKeys(packages);
    var rendered := Rendering(Survivors(keys));
    RenderingCard(Survivors(keys));
    SubsetCard(Survivors(keys), keys);
    var exact := set r | r in packages && !r.isWildcard;
    var wild := set r | r in packages && r.isWildcard;
    TextsCard(exact);
    TextsCard(wild);
    assert ExactTexts(packages) == Texts(exact);
    assert keys == Texts(wild);
    assert packages == exact + wild && exact * wild == {};
    assert |ExactTexts(packages) + rendered| + |ExactTexts(packages) * rendered|
      == |ExactTexts(packages)| + |rendered|;
  }
}
