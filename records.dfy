/**
 * JavaScript objects whose key order shows: an object is its entries in
 * insertion order. Assignment `o[k] = v` replaces the value of an existing
 * key where it stands and appends a new key at the end; object spread
 * `{...t, ...s}` assigns the entries of `s` one by one onto `t`; lodash
 * `groupBy` builds such an object by assignment. (JavaScript lists
 * integer-like keys first; that ordering rule is not modelled.)
 */
module Records {
  import opened Values
  import opened Collections

  type Record<V> = seq<(string, V)>

  /** `Object.keys(r)`. */
  function KeysOf<V>(r: Record<V>): (ks: seq<string>)
    ensures |ks| == |r|
  {
    if r == [] then [] else [r[0].0] + KeysOf(r[1..])
  }

  /** The `i`-th key is the key of the `i`-th entry. */
  lemma {:induction false} KeysOfAt<V>(r: Record<V>)
    ensures forall i :: 0 <= i < |r| ==> KeysOf(r)[i] == r[i].0
  {
    if r != [] {
      KeysOfAt(r[1..]);
      assert forall i :: 1 <= i < |r| ==> KeysOf(r)[i] == KeysOf(r[1..])[i - 1];
    }
  }

  /** `Object.values(r)`. */
  function ValuesOf<V>(r: Record<V>): (vs: seq<V>)
    ensures |vs| == |r|
    ensures forall i :: 0 <= i < |r| ==> vs[i] == r[i].1
  {
    if r == [] then [] else [r[0].1] + ValuesOf(r[1..])
  }

  /** No key is listed twice, as in every object built by assignment. */
  predicate Distinct<V>(r: Record<V>) {
    r == [] || (r[0].0 !in KeysOf(r[1..]) && Distinct(r[1..]))
  }

  /** `r[k]`, `None` for a missing key. */
  function Lookup<V>(r: Record<V>, k: string): (v: Option<V>)
    ensures v.Some? <==> k in KeysOf(r)
  {
    if r == [] then None else if r[0].0 == k then Some(r[0].1) else Lookup(r[1..], k)
  }

  /** The facts about an object whose first entry is `e`, the rest `t`. */
  lemma ConsFacts<V>(e: (string, V), t: Record<V>)
    ensures var c := [e] + t;
      && c[0] == e && c[1..] == t
      && KeysOf(c) == [e.0] + KeysOf(t)
      && (Distinct(c) <==> e.0 !in KeysOf(t) && Distinct(t))
      && (forall k :: Lookup(c, k) == if e.0 == k then Some(e.1) else Lookup(t, k))
  {
    assert ([e] + t)[1..] == t;
  }

  /** What `Put` promises of `r'` as the result of `r[k] = v`. */
  ghost predicate PutResult<V>(r: Record<V>, k: string, v: V, r': Record<V>) {
    && Lookup(r', k) == Some(v)
    && (forall k' :: k' != k ==> Lookup(r', k') == Lookup(r, k'))
    && KeysOf(r') == (if k in KeysOf(r) then KeysOf(r) else KeysOf(r) + [k])
    && (Distinct(r) ==> Distinct(r'))
  }

  /** Assigning past an entry with another key keeps that entry in front. */
  lemma PutStep<V>(r: Record<V>, k: string, v: V, rest: Record<V>)
    requires r != [] && r[0].0 != k && PutResult(r[1..], k, v, rest)
    ensures PutResult(r, k, v, [r[0]] + rest)
  {
    ConsFacts(r[0], rest);
    assert KeysOf(r) == [r[0].0] + KeysOf(r[1..]);
  }

  /** Assigning an entry's own key replaces its value in place. */
  lemma PutHere<V>(r: Record<V>, k: string, v: V)
    requires r != [] && r[0].0 == k
    ensures PutResult(r, k, v, [(k, v)] + r[1..])
  {
    ConsFacts((k, v), r[1..]);
    assert KeysOf(r) == [r[0].0] + KeysOf(r[1..]);
  }

  /** `r[k] = v`. */
  function Put<V>(r: Record<V>, k: string, v: V): (r': Record<V>)
    ensures Lookup(r', k) == Some(v)
    ensures forall k' :: k' != k ==> Lookup(r', k') == Lookup(r, k')
    ensures KeysOf(r') == if k in KeysOf(r) then KeysOf(r) else KeysOf(r) + [k]
    ensures Distinct(r) ==> Distinct(r')
  {
    if r == [] then
      ConsFacts((k, v), []);
      [(k, v)]
    else if r[0].0 == k then
      PutHere(r, k, v);
      [(k, v)] + r[1..]
    else
      var rest := Put(r[1..], k, v);
      PutStep(r, k, v, rest);
      [r[0]] + rest
  }

  /** Assigning a key the object does not have appends it. */
  lemma {:induction false} PutNewKeyAppends<V>(r: Record<V>, k: string, v: V)
    requires k !in KeysOf(r)
    ensures Put(r, k, v) == r + [(k, v)]
  {
    if r != [] {
      assert KeysOf(r) == [r[0].0] + KeysOf(r[1..]);
      PutNewKeyAppends(r[1..], k, v);
      PutSkipsHead(r, k, v);
      SeqAssoc([r[0]], r[1..], [(k, v)]);
      assert r == [r[0]] + r[1..];
    }
  }

  lemma PutSkipsHead<V>(r: Record<V>, k: string, v: V)
    requires r != [] && r[0].0 != k
    ensures Put(r, k, v) == [r[0]] + Put(r[1..], k, v)
  {
  }

  /**
   * `{...t, ...s}`: every key of `s` takes its value from `s`, every other
   * key keeps its value from `t`; the keys of `t` stay first, in their order.
   */
  function Assign<V>(t: Record<V>, s: Record<V>): (r: Record<V>)
    ensures Distinct(s) ==> forall k :: Lookup(r, k) == if k in KeysOf(s) then Lookup(s, k) else Lookup(t, k)
    ensures forall k :: k in KeysOf(r) <==> k in KeysOf(t) || k in KeysOf(s)
    ensures KeysOf(t) <= KeysOf(r)
    ensures Distinct(s) ==> KeysOf(r) == KeysOf(t) + FilterBy(KeysOf(s), NotIn(KeysOf(t)))
    ensures Distinct(t) ==> Distinct(r)
    decreases s
  {
    if s == [] then
      assert KeysOf(t) + [] == KeysOf(t);
      t
    else
      var t' := Put(t, s[0].0, s[0].1);
      var r := Assign(t', s[1..]);
      assert KeysOf(t) <= KeysOf(t') <= KeysOf(r);
      assert KeysOf(s) == [s[0].0] + KeysOf(s[1..]);
      assert Distinct(s) ==> KeysOf(r) == KeysOf(t) + FilterBy(KeysOf(s), NotIn(KeysOf(t))) by {
        if Distinct(s) {
          AssignKeysStep(KeysOf(t), s[0].0, KeysOf(s[1..]), KeysOf(t'), KeysOf(r));
        }
      }
      r
  }

  /** The test "not a key of `ks`". */
  function NotIn(ks: seq<string>): string -> bool {
    k => k !in ks
  }

  /** One step of the spread: the key `k0` is appended exactly when `t` lacks it. */
  lemma AssignKeysStep(kt: seq<string>, k0: string, rest: seq<string>, kt': seq<string>, kr: seq<string>)
    requires k0 !in rest
    requires kt' == if k0 in kt then kt else kt + [k0]
    requires kr == kt' + FilterBy(rest, NotIn(kt'))
    ensures kr == kt + FilterBy([k0] + rest, NotIn(kt))
  {
    if k0 in kt {
      FilterSkipsHead(k0, rest, NotIn(kt));
    } else {
      AssignKeysNew(kt, k0, rest);
    }
  }

  /** A new key `k0` goes after the keys of `t`, and the later keys are filtered as before. */
  lemma AssignKeysNew(kt: seq<string>, k0: string, rest: seq<string>)
    requires k0 !in rest && k0 !in kt
    ensures kt + [k0] + FilterBy(rest, NotIn(kt + [k0])) == kt + FilterBy([k0] + rest, NotIn(kt))
  {
    NotInAgrees(kt, k0, rest);
    FilterKeepsHead(k0, rest, NotIn(kt));
    SeqAssoc(kt, [k0], FilterBy(rest, NotIn(kt)));
  }

  /** Past a new key `k0` that `rest` lacks, "not in `kt`" and "not in `kt + [k0]`" filter `rest` alike. */
  lemma NotInAgrees(kt: seq<string>, k0: string, rest: seq<string>)
    requires k0 !in rest
    ensures FilterBy(rest, NotIn(kt + [k0])) == FilterBy(rest, NotIn(kt))
  {
    forall x | x in rest ensures NotIn(kt + [k0])(x) == NotIn(kt)(x) {
      assert x != k0;
    }
    FilterAgree(rest, NotIn(kt + [k0]), NotIn(kt));
  }

  /** The object with every value passed through `f`, keys and their order kept. */
  function MapValues<V, W>(r: Record<V>, f: V -> W): (r': Record<W>)
    ensures KeysOf(r') == KeysOf(r)
    ensures forall k :: Lookup(r', k) == if k in KeysOf(r) then Some(f(Lookup(r, k).value)) else None
    ensures Distinct(r) ==> Distinct(r')
  {
    if r == [] then []
    else
      var rest := MapValues(r[1..], f);
      assert KeysOf([(r[0].0, f(r[0].1))] + rest) == [r[0].0] + KeysOf(rest);
      assert ([(r[0].0, f(r[0].1))] + rest)[1..] == rest;
      [(r[0].0, f(r[0].1))] + rest
  }

  /** The elements of `s` whose key is `k`, in order. */
  function Members<T(!new)>(s: seq<T>, key: T -> string, k: string): (m: seq<T>)
    ensures m != [] <==> HasKey(s, key, k)
  {
    HasKeyIff(s, key, k);
    var m := FilterBy(s, KeyIs(key, k));
    assert m != [] ==> m[0] in m;
    m
  }

  /** The fold behind `groupBy`, starting from the groups `acc`. */
  function GroupInto<T(!new)>(acc: Record<seq<T>>, s: seq<T>, key: T -> string): Record<seq<T>>
    decreases s
  {
    if s == [] then acc
    else
      var k := key(s[0]);
      GroupInto(Put(acc, k, Lookup(acc, k).GetOr([]) + [s[0]]), s[1..], key)
  }

  lemma {:induction false} GroupIntoKeys<T(!new)>(acc: Record<seq<T>>, s: seq<T>, key: T -> string)
    requires Distinct(acc)
    ensures Distinct(GroupInto(acc, s, key))
    ensures forall k :: k in KeysOf(GroupInto(acc, s, key)) <==> k in KeysOf(acc) || HasKey(s, key, k)
    decreases s
  {
    if s != [] {
      var k0 := key(s[0]);
      GroupIntoKeys(Put(acc, k0, Lookup(acc, k0).GetOr([]) + [s[0]]), s[1..], key);
    }
  }

  /** The group of `k` after the fold: its old members followed by the new ones. */
  lemma {:induction false} GroupIntoGroup<T(!new)>(acc: Record<seq<T>>, s: seq<T>, key: T -> string, k: string)
    ensures Lookup(GroupInto(acc, s, key), k) == GroupAfter(acc, s, key, k)
    decreases s
  {
    if s == [] {
      assert Lookup(acc, k).GetOr([]) + [] == Lookup(acc, k).GetOr([]);
    } else {
      var k0 := key(s[0]);
      var acc' := Put(acc, k0, Lookup(acc, k0).GetOr([]) + [s[0]]);
      GroupIntoGroup(acc', s[1..], key, k);
      GroupAfterStep(acc, s, key, k);
    }
  }

  /** The keys listed in `ks`. */
  function Seen(ks: seq<string>): set<string> {
    set k | k in ks
  }

  lemma SeenSnoc(ks: seq<string>, k: string)
    ensures Seen(ks + [k]) == Seen(ks) + {k}
  {
    assert forall x :: x in ks + [k] <==> x in ks || x == k;
  }

  /** The fold appends each key at its first occurrence in `s`, unless `acc` has it already. */
  lemma {:induction false} GroupIntoOrder<T(!new)>(acc: Record<seq<T>>, s: seq<T>, key: T -> string)
    ensures KeysOf(GroupInto(acc, s, key)) == KeysOf(acc) + UniqByFrom(KeysAlong(s, key), Identity, Seen(KeysOf(acc)))
    decreases s
  {
    if s == [] {
      assert KeysOf(acc) + [] == KeysOf(acc);
    } else {
      var k0 := key(s[0]);
      var acc' := Put(acc, k0, Lookup(acc, k0).GetOr([]) + [s[0]]);
      GroupIntoOrder(acc', s[1..], key);
      var ks := KeysAlong(s, key);
      KeysAlongHead(s, key);
      if k0 in KeysOf(acc) {
        UniqSkip(ks, Identity, Seen(KeysOf(acc)));
      } else {
        SeenSnoc(KeysOf(acc), k0);
        UniqTake(ks, Identity, Seen(KeysOf(acc)));
        SeqAssoc(KeysOf(acc), [k0], UniqByFrom(ks[1..], Identity, Seen(KeysOf(acc'))));
      }
    }
  }

  /** What `GroupIntoGroup` promises for the group of `k`. */
  function GroupAfter<T(!new)>(acc: Record<seq<T>>, s: seq<T>, key: T -> string, k: string): Option<seq<T>> {
    if Lookup(acc, k).None? && !HasKey(s, key, k) then None
    else Some(Lookup(acc, k).GetOr([]) + Members(s, key, k))
  }

  lemma GroupAfterStep<T(!new)>(acc: Record<seq<T>>, s: seq<T>, key: T -> string, k: string)
    requires s != []
    ensures var k0 := key(s[0]);
      GroupAfter(acc, s, key, k) == GroupAfter(Put(acc, k0, Lookup(acc, k0).GetOr([]) + [s[0]]), s[1..], key, k)
  {
    MembersStep(s, key, k);
    if k == key(s[0]) {
      SeqAssoc(Lookup(acc, k).GetOr([]), [s[0]], Members(s[1..], key, k));
    } else {
      assert [] + Members(s[1..], key, k) == Members(s[1..], key, k);
    }
  }

  /** The first element joins its key's members; the others follow. */
  lemma MembersStep<T(!new)>(s: seq<T>, key: T -> string, k: string)
    requires s != []
    ensures Members(s, key, k) == (if key(s[0]) == k then [s[0]] else []) + Members(s[1..], key, k)
  {
    assert [] + Members(s[1..], key, k) == Members(s[1..], key, k);
  }

  /**
   * lodash `groupBy(s, key)`: one entry per key that occurs in `s`, each
   * holding exactly the elements with that key, in their order; no group is
   * empty.
   */
  function GroupBy<T(!new)>(s: seq<T>, key: T -> string): (r: Record<seq<T>>)
    ensures Distinct(r)
    ensures forall k :: k in KeysOf(r) <==> HasKey(s, key, k)
    ensures forall k :: Lookup(r, k) == if HasKey(s, key, k) then Some(Members(s, key, k)) else None
    ensures KeysOf(r) == Dedup(KeysAlong(s, key))
  {
    GroupIntoKeys([], s, key);
    GroupIntoOrder([], s, key);
    assert Seen(KeysOf<seq<T>>([])) == {};
    var r := GroupInto([], s, key);
    forall k ensures Lookup(r, k) == if HasKey(s, key, k) then Some(Members(s, key, k)) else None {
      GroupIntoGroup([], s, key, k);
      assert [] + Members(s, key, k) == Members(s, key, k);
    }
    r
  }
}
