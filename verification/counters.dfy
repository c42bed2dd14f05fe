/**
 * `collections.Counter` over strings, as the script uses it: reading a
 * missing key gives 0 without inserting it, adding an occurrence of a new
 * key appends the key to the insertion order.
 */
module Counters {
  import opened Seqs

  /** Keys in insertion order, and the count of each key. */
  datatype Counter = Counter(keys: seq<string>, counts: map<string, nat>)

  const Empty: Counter := Counter([], map[])

  /** Every key is listed once, and only keys that were counted are present. */
  ghost predicate Valid(c: Counter)
  {
    && Distinct(c.keys)
    && (forall w :: w in c.counts <==> w in c.keys)
    && (forall w :: w in c.counts ==> c.counts[w] > 0)
  }

  /** `c[w]`. */
  function Get(c: Counter, w: string): nat
  {
    if w in c.counts then c.counts[w] else 0
  }

  /** `c.update({w: 1})`, equivalently one step of `c.update([w])`. */
  function Add(c: Counter, w: string): (r: Counter)
    requires Valid(c)
    ensures Valid(r)
    ensures Get(r, w) == Get(c, w) + 1
    ensures forall v :: v != w ==> Get(r, v) == Get(c, v)
    ensures r.keys == if w in c.keys then c.keys else c.keys + [w]
    ensures forall v :: v in r.counts <==> v in c.counts || v == w
  {
    if w in c.counts then c.(counts := c.counts[w := c.counts[w] + 1])
    else Counter(c.keys + [w], c.counts[w := 1])
  }

  /** `c.update(ws)`: one occurrence added per element, left to right. */
  function Update(c: Counter, ws: seq<string>): (r: Counter)
    requires Valid(c)
    ensures Valid(r)
    decreases |ws|
  {
    if |ws| == 0 then c else Update(Add(c, ws[0]), ws[1..])
  }

  /** Updating adds exactly the multiplicity of each word in `ws`. */
  lemma {:induction false} UpdateCounts(c: Counter, ws: seq<string>, w: string)
    requires Valid(c)
    ensures Get(Update(c, ws), w) == Get(c, w) + multiset(ws)[w]
    decreases |ws|
  {
    if |ws| > 0 {
      UpdateCounts(Add(c, ws[0]), ws[1..], w);
      assert ws == [ws[0]] + ws[1..];
    }
  }

  /** The keys after updating are the old keys and the words of `ws`. */
  lemma {:induction false} UpdateKeys(c: Counter, ws: seq<string>, w: string)
    requires Valid(c)
    ensures w in Update(c, ws).counts <==> w in c.counts || w in ws
    decreases |ws|
  {
    if |ws| > 0 {
      var c' := Add(c, ws[0]);
      UpdateKeys(c', ws[1..], w);
      InHeadOrTail(ws, w);
      assert Update(c, ws) == Update(c', ws[1..]);
    }
  }

  lemma InHeadOrTail(ws: seq<string>, w: string)
    requires |ws| > 0
    ensures w in ws <==> w == ws[0] || w in ws[1..]
  {
    assert ws == [ws[0]] + ws[1..];
  }

  /** Old keys keep their place; new keys are appended. */
  lemma {:induction false} UpdateKeepsOrder(c: Counter, ws: seq<string>)
    requires Valid(c)
    ensures |c.keys| <= |Update(c, ws).keys|
    ensures Update(c, ws).keys[..|c.keys|] == c.keys
    decreases |ws|
  {
    if |ws| > 0 {
      var c' := Add(c, ws[0]);
      UpdateKeepsOrder(c', ws[1..]);
      PrefixOfPrefix(Update(c', ws[1..]).keys, c'.keys, c.keys);
    }
  }

  /** `lambda w: c[w]`. */
  function Count(c: Counter): string -> int
  {
    w => Get(c, w)
  }

  /** The count negated: minimising it finds the most common word. */
  function NegCount(c: Counter): string -> int
  {
    w => -(Get(c, w) as int)
  }

  /** The count as a sort key. */
  function CountKey(c: Counter): string -> real
  {
    w => Get(c, w) as real
  }
}
