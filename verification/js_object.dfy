/**
  Plain JavaScript objects with string keys and string values, as ordered
  association lists. Own string keys that are not array indices enumerate in
  insertion order: assigning to an existing key keeps its position, assigning
  to a new key appends it. Object spread (`{...a, ...b}`), JSX attribute
  spread, and React's shallow `setState` merge are all successive assignments.
 */
module JsObject {

  import opened Wrappers

  type Obj = seq<(string, string)>

  /** Keys in enumeration order, as `Object.keys` lists them. */
  function Keys(o: Obj): (ks: seq<string>)
    ensures |ks| == |o|
  {
    if |o| == 0 then [] else [o[0].0] + Keys(o[1..])
  }

  predicate Distinct(ks: seq<string>) {
    forall i, j :: 0 <= i < j < |ks| ==> ks[i] != ks[j]
  }

  /** No key appears twice, as in every JavaScript object. */
  predicate DistinctKeys(o: Obj) {
    Distinct(Keys(o))
  }

  /** Property read `o[k]`: `None` stands for `undefined`. */
  function Lookup(o: Obj, k: string): (r: Option<string>)
    ensures r.Some? <==> k in Keys(o)
  {
    if |o| == 0 then None
    else if o[0].0 == k then Some(o[0].1)
    else Lookup(o[1..], k)
  }

  /** Property assignment `o[k] = v`. */
  function Put(o: Obj, k: string, v: string): (r: Obj)
    ensures Lookup(r, k) == Some(v)
    ensures forall k' :: k' != k ==> Lookup(r, k') == Lookup(o, k')
    ensures k in Keys(o) ==> Keys(r) == Keys(o)
    ensures k !in Keys(o) ==> Keys(r) == Keys(o) + [k]
  {
    if |o| == 0 then [(k, v)]
    else if o[0].0 == k then
      var r := [(k, v)] + o[1..];
      assert r[1..] == o[1..];
      r
    else
      var r := [o[0]] + Put(o[1..], k, v);
      assert r[1..] == Put(o[1..], k, v);
      assert Keys(o) == [o[0].0] + Keys(o[1..]);
      r
  }

  /** Assignment keeps the keys of an object distinct. */
  lemma PutKeepsDistinct(o: Obj, k: string, v: string)
    requires DistinctKeys(o)
    ensures DistinctKeys(Put(o, k, v))
  {
    var ks := Keys(o);
    if k !in ks {
      var ks' := ks + [k];
      forall i, j | 0 <= i < j < |ks'|
        ensures ks'[i] != ks'[j]
      {
        if j == |ks| {
          assert ks[i] in ks;
        }
      }
    }
  }

  /** The key at position `i` is the key of the `i`-th entry. */
  lemma {:induction false} KeysAt(o: Obj, i: nat)
    requires i < |o|
    ensures Keys(o)[i] == o[i].0
  {
    if i > 0 {
      KeysAt(o[1..], i - 1);
    }
  }

  /** In an object, reading the `i`-th entry's key gives the `i`-th entry's value. */
  lemma {:induction false} LookupAt(o: Obj, i: nat)
    requires DistinctKeys(o)
    requires i < |o|
    ensures Lookup(o, o[i].0) == Some(o[i].1)
  {
    if i > 0 {
      KeysAt(o, 0);
      KeysAt(o, i);
      assert o[i].0 != o[0].0;
      DistinctTail(o);
      LookupAt(o[1..], i - 1);
    }
  }

  /** The keys after the first of a distinct-key object are still distinct, and exclude the first. */
  lemma DistinctTail(o: Obj)
    requires |o| > 0 && DistinctKeys(o)
    ensures DistinctKeys(o[1..])
    ensures o[0].0 !in Keys(o[1..])
  {
    var ks := Keys(o);
    var tail := Keys(o[1..]);
    assert ks == [o[0].0] + tail;
    forall i, j | 0 <= i < j < |tail|
      ensures tail[i] != tail[j]
    {
      assert ks[i + 1] == tail[i] && ks[j + 1] == tail[j];
    }
    forall i | 0 <= i < |tail|
      ensures tail[i] != o[0].0
    {
      assert ks[i + 1] == tail[i];
      assert ks[0] == o[0].0;
    }
  }

  /** Object spread `{...target, ...src}`: the properties of `src` assigned onto `target`, in order. */
  function Spread(target: Obj, src: Obj): (r: Obj)
    ensures Keys(target) <= Keys(r)
    decreases |src|
  {
    if |src| == 0 then target else Spread(Put(target, src[0].0, src[0].1), src[1..])
  }

  /** After a spread, a key reads from `src` when `src` has it and from `target` otherwise. */
  lemma {:induction false} SpreadLookup(target: Obj, src: Obj, k: string)
    requires DistinctKeys(src)
    ensures Lookup(Spread(target, src), k) == (if k in Keys(src) then Lookup(src, k) else Lookup(target, k))
    decreases |src|
  {
    if |src| > 0 {
      DistinctTail(src);
      SpreadLookup(Put(target, src[0].0, src[0].1), src[1..], k);
      assert Keys(src) == [src[0].0] + Keys(src[1..]);
    }
  }

  /** A spread of distinct-key objects has distinct keys. */
  lemma {:induction false} SpreadKeepsDistinct(target: Obj, src: Obj)
    requires DistinctKeys(target)
    ensures DistinctKeys(Spread(target, src))
    decreases |src|
  {
    if |src| > 0 {
      PutKeepsDistinct(target, src[0].0, src[0].1);
      SpreadKeepsDistinct(Put(target, src[0].0, src[0].1), src[1..]);
    }
  }

  /** Spreading new keys appends them after the existing ones, in `src` order. */
  lemma {:induction false} SpreadNewKeys(target: Obj, src: Obj)
    requires DistinctKeys(src)
    requires forall k :: k in Keys(src) ==> k !in Keys(target)
    ensures Keys(Spread(target, src)) == Keys(target) + Keys(src)
    decreases |src|
  {
    if |src| > 0 {
      var k := src[0].0;
      var rest := src[1..];
      var target' := Put(target, k, src[0].1);
      DistinctTail(src);
      assert Keys(src) == [k] + Keys(rest);
      assert Keys(target') == Keys(target) + [k] by {
        assert k in Keys(src);
      }
      assert forall k' :: k' in Keys(rest) ==> k' !in Keys(target') by {
        forall k' | k' in Keys(rest)
          ensures k' !in Keys(target')
        {
          assert k' in Keys(src);
        }
      }
      calc {
        Keys(Spread(target, src));
        Keys(Spread(target', rest));
        { SpreadNewKeys(target', rest); }
        (Keys(target) + [k]) + Keys(rest);
        Keys(target) + ([k] + Keys(rest));
      }
    }
  }

  /** Spreading only existing keys leaves the key order as it was. */
  lemma {:induction false} SpreadExistingKeys(target: Obj, src: Obj)
    requires forall k :: k in Keys(src) ==> k in Keys(target)
    ensures Keys(Spread(target, src)) == Keys(target)
    decreases |src|
  {
    if |src| > 0 {
      assert Keys(src) == [src[0].0] + Keys(src[1..]);
      SpreadExistingKeys(Put(target, src[0].0, src[0].1), src[1..]);
    }
  }
}
