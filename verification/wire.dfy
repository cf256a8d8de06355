/** Text-level building blocks shared by the three FIX codecs and the receive loop:
    the SOH delimiter, `tag=value` fields, Rust's `split`/`splitn`/`find` on text,
    decimal rendering, and the mod-256 byte sum behind CheckSum(10).
    Text is `string`; every character stands for one ASCII byte, whose value is `c as int`. */
module Wire {

  /** The field delimiter, byte 0x01. */
  const SOH: char := '\U{1}'

  datatype Option<T> = None | Some(value: T)

  /** A Rust `Result<_, &'static str>`: the error is the source's own message text. */
  datatype Result<T> = Ok(value: T) | Err(error: string)

  /** The three tag -> value maps of a FIX message (header, body, trailer). */
  datatype Message = Message(header: map<string, string>, body: map<string, string>, trailer: map<string, string>)

  const EmptyMessage: Message := Message(map[], map[], map[])

  /** What a map codec's `encode` returns, and the message it leaves behind. */
  datatype Encoded = Encoded(text: string, message: Message)

  // ---------------------------------------------------------------------------
  // Fields and their concatenation

  /** `tag=value`, the text of one field without its delimiter. */
  function Pair(tag: string, value: string): string
  {
    tag + "=" + value
  }

  /** What `write!(s, "{}={}{}", tag, value, SOH)` appends: one SOH-terminated field. */
  function Field(tag: string, value: string): string
  {
    Pair(tag, value) + [SOH]
  }

  /** Every piece of `ps` followed by one SOH, in order. */
  function Terminated(ps: seq<string>): string
  {
    if ps == [] then "" else ps[0] + [SOH] + Terminated(ps[1..])
  }

  /** The value of `k` in `m`; every use below looks up keys the map has. */
  function Lookup(m: map<string, string>, k: string): string
  {
    if k in m then m[k] else ""
  }

  /** The `tag=value` pairs of `m` for `keys`, in the order of `keys`. */
  function Pairs(m: map<string, string>, keys: seq<string>): (r: seq<string>)
    ensures |r| == |keys|
    ensures forall i :: 0 <= i < |keys| ==> r[i] == Pair(keys[i], Lookup(m, keys[i]))
  {
    if keys == [] then [] else [Pair(keys[0], Lookup(m, keys[0]))] + Pairs(m, keys[1..])
  }

  /** The text a `for (tag, value) in m { write!(...) }` loop produces when it visits `keys` (keys of `m`) in order. */
  function FieldsText(m: map<string, string>, keys: seq<string>): string
  {
    Terminated(Pairs(m, keys))
  }

  /** A `write!(s, "{}={}{}", tag, value, SOH)` loop over a map visiting `keys` in order. */
  method WriteFields(m: map<string, string>, keys: seq<string>) returns (s: string)
    ensures s == FieldsText(m, keys)
  {
    s := "";
    var i := 0;
    while i < |keys|
      invariant 0 <= i <= |keys|
      invariant s == FieldsText(m, keys[..i])
    {
      FieldsTextSnoc(m, keys, i);
      s := s + Field(keys[i], Lookup(m, keys[i]));
      i := i + 1;
    }
    assert keys[..i] == keys;
  }

  /** The same loop writing only the keys outside `excluded`. */
  method WriteFieldsExcept(m: map<string, string>, keys: seq<string>, excluded: set<string>) returns (s: string)
    ensures s == FieldsText(m, Without(keys, excluded))
  {
    s := "";
    var i := 0;
    while i < |keys|
      invariant 0 <= i <= |keys|
      invariant s == FieldsText(m, Without(keys[..i], excluded))
    {
      WithoutSnoc(keys, excluded, i);
      if keys[i] !in excluded {
        FieldsTextAddKey(m, Without(keys[..i], excluded), keys[i]);
        assert Without(keys[..i + 1], excluded) == Without(keys[..i], excluded) + [keys[i]];
        s := s + Field(keys[i], Lookup(m, keys[i]));
      } else {
        assert Without(keys[..i + 1], excluded) == Without(keys[..i], excluded);
      }
      i := i + 1;
    }
    assert keys[..i] == keys;
  }

  /** A loop over a fixed tag list writing `tag=value` for each tag the map has (`if let Some(value) = m.get(tag)`). */
  method WritePresentFields(m: map<string, string>, tags: seq<string>) returns (s: string)
    ensures s == FieldsText(m, PresentIn(tags, m))
  {
    s := "";
    var i := 0;
    while i < |tags|
      invariant 0 <= i <= |tags|
      invariant s == FieldsText(m, PresentIn(tags[..i], m))
    {
      PresentInSnoc(tags, m, i);
      if tags[i] in m {
        FieldsTextAddKey(m, PresentIn(tags[..i], m), tags[i]);
        assert PresentIn(tags[..i + 1], m) == PresentIn(tags[..i], m) + [tags[i]];
        s := s + Field(tags[i], m[tags[i]]);
      } else {
        assert PresentIn(tags[..i + 1], m) == PresentIn(tags[..i], m);
      }
      i := i + 1;
    }
    assert tags[..i] == tags;
  }

  lemma PresentInSnoc(keys: seq<string>, m: map<string, string>, i: nat)
    requires i < |keys|
    ensures PresentIn(keys[..i + 1], m) == PresentIn(keys[..i], m) + (if keys[i] in m then [keys[i]] else [])
  {
    PresentInAppend(keys[..i], [keys[i]], m);
    assert keys[..i + 1] == keys[..i] + [keys[i]];
  }

  lemma {:induction false} PresentInAppend(a: seq<string>, b: seq<string>, m: map<string, string>)
    ensures PresentIn(a + b, m) == PresentIn(a, m) + PresentIn(b, m)
  {
    if a == [] {
      assert a + b == b;
    } else {
      assert (a + b)[1..] == a[1..] + b;
      PresentInAppend(a[1..], b, m);
    }
  }

  /** `keys` lists every element of `s` exactly once: one iteration order of a map whose key set is `s`. */
  predicate IsOrdering(keys: seq<string>, s: set<string>)
  {
    && (forall i, j :: 0 <= i < j < |keys| ==> keys[i] != keys[j])
    && (forall k :: k in keys ==> k in s)
    && (forall k :: k in s ==> k in keys)
  }

  /** The elements of `keys` that are not in `excluded`, in order. */
  function Without(keys: seq<string>, excluded: set<string>): seq<string>
  {
    if keys == [] then []
    else (if keys[0] !in excluded then [keys[0]] else []) + Without(keys[1..], excluded)
  }

  /** A key is kept exactly when it is listed and not excluded. */
  lemma {:induction false} WithoutMembership(keys: seq<string>, excluded: set<string>)
    ensures forall k :: k in Without(keys, excluded) <==> k in keys && k !in excluded
  {
    if keys != [] {
      WithoutMembership(keys[1..], excluded);
      assert keys == [keys[0]] + keys[1..];
    }
  }

  /** The keys of `m` that appear in `keys`, in the order of `keys`. */
  function PresentIn(keys: seq<string>, m: map<string, string>): seq<string>
  {
    if keys == [] then []
    else (if keys[0] in m then [keys[0]] else []) + PresentIn(keys[1..], m)
  }

  /** A key is kept exactly when it is listed and present. */
  lemma {:induction false} PresentInMembership(keys: seq<string>, m: map<string, string>)
    ensures forall k :: k in PresentIn(keys, m) <==> k in keys && k in m
  {
    if keys != [] {
      PresentInMembership(keys[1..], m);
      assert keys == [keys[0]] + keys[1..];
    }
  }

  /** The `(tag, value)` entries of `m` for `keys`, in the order of `keys`. */
  function Entries(m: map<string, string>, keys: seq<string>): (r: seq<(string, string)>)
    requires forall k :: k in keys ==> k in m
    ensures |r| == |keys|
  {
    if keys == [] then [] else [(keys[0], m[keys[0]])] + Entries(m, keys[1..])
  }

  /** The `i`-th entry is the `i`-th key with its value. */
  lemma {:induction false} EntriesIndex(m: map<string, string>, keys: seq<string>, i: nat)
    requires forall k :: k in keys ==> k in m
    requires i < |keys|
    ensures keys[i] in m && Entries(m, keys)[i] == (keys[i], m[keys[i]])
  {
    assert keys[i] in keys;
    if i > 0 {
      assert forall k :: k in keys[1..] ==> k in keys;
      EntriesIndex(m, keys[1..], i - 1);
    }
  }

  /** The `tag=value` text of each entry. */
  function PairTexts(es: seq<(string, string)>): (r: seq<string>)
    ensures |r| == |es|
  {
    if es == [] then [] else [Pair(es[0].0, es[0].1)] + PairTexts(es[1..])
  }

  /** The `i`-th text is the text of the `i`-th entry. */
  lemma {:induction false} PairTextsIndex(es: seq<(string, string)>)
    ensures forall i :: 0 <= i < |es| ==> PairTexts(es)[i] == Pair(es[i].0, es[i].1)
  {
    if es != [] {
      PairTextsIndex(es[1..]);
      forall i | 1 <= i < |es| ensures PairTexts(es)[i] == Pair(es[i].0, es[i].1) {
        assert PairTexts(es)[i] == PairTexts(es[1..])[i - 1];
      }
    }
  }

  lemma PairTextsAppend(a: seq<(string, string)>, b: seq<(string, string)>)
    ensures PairTexts(a + b) == PairTexts(a) + PairTexts(b)
  {
    PairTextsIndex(a + b);
    PairTextsIndex(a);
    PairTextsIndex(b);
    forall i | 0 <= i < |a + b| ensures PairTexts(a + b)[i] == (PairTexts(a) + PairTexts(b))[i] {
      if i < |a| {
        assert (a + b)[i] == a[i];
      } else {
        assert (a + b)[i] == b[i - |a|];
      }
    }
  }

  lemma PairsAreEntryTexts(m: map<string, string>, keys: seq<string>)
    requires forall k :: k in keys ==> k in m
    ensures Pairs(m, keys) == PairTexts(Entries(m, keys))
  {
    PairTextsIndex(Entries(m, keys));
    forall i | 0 <= i < |keys| ensures Pairs(m, keys)[i] == PairTexts(Entries(m, keys))[i] {
      EntriesIndex(m, keys, i);
    }
  }

  /** The value of the last entry for `k`, if any: what a sequence of map inserts leaves under `k`. */
  function LastValue(es: seq<(string, string)>, k: string): Option<string>
  {
    if es == [] then None
    else if es[|es| - 1].0 == k then Some(es[|es| - 1].1)
    else LastValue(es[..|es| - 1], k)
  }

  lemma {:induction false} LastValueAppend(a: seq<(string, string)>, b: seq<(string, string)>, k: string)
    ensures LastValue(a + b, k) == if LastValue(b, k).Some? then LastValue(b, k) else LastValue(a, k)
  {
    if b == [] {
      assert a + b == a;
    } else {
      assert (a + b)[..|a + b| - 1] == a + b[..|b| - 1];
      LastValueAppend(a, b[..|b| - 1], k);
    }
  }

  /** With duplicate-free keys, the last entry for `k` carries the map's own value. */
  lemma {:induction false} LastValueOfEntries(m: map<string, string>, keys: seq<string>, k: string)
    requires forall k :: k in keys ==> k in m
    requires forall i, j :: 0 <= i < j < |keys| ==> keys[i] != keys[j]
    ensures LastValue(Entries(m, keys), k) == if k in keys then Some(m[k]) else None
  {
    if keys != [] {
      var n := |keys| - 1;
      var init := keys[..n];
      EntriesLast(m, keys);
      if keys[n] != k {
        DistinctPrefix(keys);
        LastValueOfEntries(m, init, k);
        assert keys == init + [keys[n]];
      }
    }
  }

  /** Dropping the last key drops the last entry. */
  lemma EntriesLast(m: map<string, string>, keys: seq<string>)
    requires forall k :: k in keys ==> k in m
    requires keys != []
    ensures var es := Entries(m, keys); var n := |keys| - 1;
      es[n] == (keys[n], m[keys[n]]) && (forall k :: k in keys[..n] ==> k in m) && es[..n] == Entries(m, keys[..n])
  {
    var n := |keys| - 1;
    var init := keys[..n];
    assert forall k :: k in init ==> k in keys;
    EntriesIndex(m, keys, n);
    forall i | 0 <= i < n ensures Entries(m, keys)[i] == Entries(m, init)[i] {
      EntriesIndex(m, keys, i);
      EntriesIndex(m, init, i);
    }
  }


  lemma DistinctPrefix(keys: seq<string>)
    requires keys != []
    requires forall i, j :: 0 <= i < j < |keys| ==> keys[i] != keys[j]
    ensures var init := keys[..|keys| - 1]; forall i, j :: 0 <= i < j < |init| ==> init[i] != init[j]
  {
  }

  /** The first step of both map codecs' `encode`: BeginString(8) becomes "FIX.4.4" and SendingTime(52)
      becomes the clock reading, each only when the header does not have it yet. */
  function WithDefaults(header: map<string, string>, clock: string): (h: map<string, string>)
    ensures h.Keys == header.Keys + {"8", "52"}
    ensures forall k :: k in header ==> h[k] == header[k]
    ensures "8" !in header ==> h["8"] == "FIX.4.4"
    ensures "52" !in header ==> h["52"] == clock
  {
    var h := if "8" in header then header else header["8" := "FIX.4.4"];
    if "52" in h then h else h["52" := clock]
  }

  lemma {:induction false} PresentInDistinct(keys: seq<string>, m: map<string, string>)
    requires forall i, j :: 0 <= i < j < |keys| ==> keys[i] != keys[j]
    ensures forall i, j :: 0 <= i < j < |PresentIn(keys, m)| ==> PresentIn(keys, m)[i] != PresentIn(keys, m)[j]
  {
    if keys != [] {
      PresentInDistinct(keys[1..], m);
      assert keys[0] !in keys[1..];
      PresentInMembership(keys[1..], m);
      assert keys[0] !in PresentIn(keys[1..], m);
    }
  }

  /** Two iteration orders of disjoint key sets, one after the other, visit the union. */
  lemma OrderingAppend(a: seq<string>, sa: set<string>, b: seq<string>, sb: set<string>)
    requires IsOrdering(a, sa) && IsOrdering(b, sb) && sa !! sb
    ensures IsOrdering(a + b, sa + sb)
  {
    forall i, j | 0 <= i < j < |a + b| ensures (a + b)[i] != (a + b)[j] {
      if j < |a| {
      } else if i >= |a| {
        assert (a + b)[i] == b[i - |a|] && (a + b)[j] == b[j - |a|];
      } else {
        assert (a + b)[i] in sa && (a + b)[j] == b[j - |a|] && (a + b)[j] in sb;
      }
    }
  }

  /** A map holding at most `k`, once `k` is set to `v`, renders as the one field `k=v`. */
  lemma SingleFieldText(d: map<string, string>, keys: seq<string>, k: string, v: string)
    requires d.Keys <= {k} && IsOrdering(keys, d.Keys + {k})
    ensures d[k := v] == map[k := v]
    ensures FieldsText(d[k := v], keys) == Field(k, v)
  {
    SingleKeyMap(d, k, v);
    assert d.Keys + {k} == {k};
    SingletonOrdering(keys, k);
    var p := Pair(k, v);
    assert Pairs(d[k := v], keys) == [p];
    assert Terminated([p]) == p + [SOH] + Terminated([]);
  }

  lemma SingleKeyMap(d: map<string, string>, k: string, v: string)
    requires d.Keys <= {k}
    ensures d[k := v] == map[k := v]
  {
    assert d[k := v].Keys == {k};
  }

  /** The only iteration order of a one-key map. */
  lemma SingletonOrdering(keys: seq<string>, k: string)
    requires IsOrdering(keys, {k})
    ensures keys == [k]
  {
    assert k in keys;
    forall i | 0 <= i < |keys| ensures keys[i] == k {
      assert keys[i] in keys;
    }
    forall x ensures multiset(keys)[x] == multiset{k}[x] {
      DistinctMultiplicity(keys, x);
    }
    assert multiset(keys) == multiset{k};
    assert |keys| == |multiset(keys)| == 1;
  }

  /** Rendering only looks at the values of the visited keys. */
  lemma {:induction false} FieldsTextAgree(m1: map<string, string>, m2: map<string, string>, keys: seq<string>)
    requires forall k :: k in keys ==> Lookup(m1, k) == Lookup(m2, k)
    ensures FieldsText(m1, keys) == FieldsText(m2, keys)
  {
    assert Pairs(m1, keys) == Pairs(m2, keys);
  }

  lemma ConcatAssoc(a: string, b: string, c: string)
    ensures a + b + c == a + (b + c)
  {
  }

  lemma {:induction false} TerminatedAppend(a: seq<string>, b: seq<string>)
    ensures Terminated(a + b) == Terminated(a) + Terminated(b)
  {
    if a == [] {
      assert a + b == b;
    } else {
      assert (a + b)[1..] == a[1..] + b;
      TerminatedAppend(a[1..], b);
    }
  }

  lemma {:induction false} PairsAppend(m: map<string, string>, a: seq<string>, b: seq<string>)
    ensures Pairs(m, a + b) == Pairs(m, a) + Pairs(m, b)
  {
  }

  /** Appending one key to the visited prefix appends exactly its field. */
  lemma FieldsTextSnoc(m: map<string, string>, keys: seq<string>, i: nat)
    requires i < |keys|
    ensures FieldsText(m, keys[..i + 1]) == FieldsText(m, keys[..i]) + Field(keys[i], Lookup(m, keys[i]))
  {
    assert keys[..i + 1] == keys[..i] + [keys[i]];
    PairsAppend(m, keys[..i], [keys[i]]);
    TerminatedAppend(Pairs(m, keys[..i]), Pairs(m, [keys[i]]));
  }

  /** Visiting one more key appends exactly its field. */
  lemma FieldsTextAddKey(m: map<string, string>, keys: seq<string>, k: string)
    ensures FieldsText(m, keys + [k]) == FieldsText(m, keys) + Field(k, Lookup(m, k))
  {
    FieldsTextAppend(m, keys, [k]);
    assert Pairs(m, [k]) == [Pair(k, Lookup(m, k))];
    assert Terminated([Pair(k, Lookup(m, k))]) == Pair(k, Lookup(m, k)) + [SOH] + Terminated([]);
  }

  /** The filtered prefix grows by the next key exactly when that key is not excluded. */
  lemma WithoutSnoc(keys: seq<string>, excluded: set<string>, i: nat)
    requires i < |keys|
    ensures Without(keys[..i + 1], excluded)
         == Without(keys[..i], excluded) + (if keys[i] !in excluded then [keys[i]] else [])
  {
    WithoutAppend(keys[..i], [keys[i]], excluded);
    assert keys[..i + 1] == keys[..i] + [keys[i]];
  }

  lemma {:induction false} WithoutAppend(a: seq<string>, b: seq<string>, excluded: set<string>)
    ensures Without(a + b, excluded) == Without(a, excluded) + Without(b, excluded)
  {
    if a == [] {
      assert a + b == b;
    } else {
      assert (a + b)[1..] == a[1..] + b;
      WithoutAppend(a[1..], b, excluded);
    }
  }

  lemma {:induction false} WithoutDistinct(keys: seq<string>, excluded: set<string>)
    requires forall i, j :: 0 <= i < j < |keys| ==> keys[i] != keys[j]
    ensures forall i, j :: 0 <= i < j < |Without(keys, excluded)| ==> Without(keys, excluded)[i] != Without(keys, excluded)[j]
  {
    if keys != [] {
      WithoutDistinct(keys[1..], excluded);
      assert keys[0] !in keys[1..];
      WithoutMembership(keys[1..], excluded);
      assert keys[0] !in Without(keys[1..], excluded);
    }
  }

  /** Filtering an iteration order of `s` gives an iteration order of the kept part of `s`. */
  lemma WithoutOrdering(keys: seq<string>, s: set<string>, excluded: set<string>)
    requires IsOrdering(keys, s)
    ensures IsOrdering(Without(keys, excluded), s - excluded)
  {
    WithoutDistinct(keys, excluded);
    WithoutMembership(keys, excluded);
  }

  // ---------------------------------------------------------------------------
  // Iteration orders do not matter for lengths and byte sums

  lemma {:induction false} DistinctMultiplicity(a: seq<string>, x: string)
    requires forall i, j :: 0 <= i < j < |a| ==> a[i] != a[j]
    ensures multiset(a)[x] == if x in a then 1 else 0
  {
    if a != [] {
      assert a == [a[0]] + a[1..];
      DistinctMultiplicity(a[1..], x);
      assert a[0] !in a[1..];
    }
  }

  /** Two iteration orders of the same key set are permutations of each other. */
  lemma OrderingsArePermutations(a: seq<string>, b: seq<string>, s: set<string>)
    requires IsOrdering(a, s) && IsOrdering(b, s)
    ensures multiset(a) == multiset(b)
  {
    forall x ensures multiset(a)[x] == multiset(b)[x] {
      DistinctMultiplicity(a, x);
      DistinctMultiplicity(b, x);
    }
  }

  lemma MultisetRemoveAt<T>(b: seq<T>, i: nat)
    requires i < |b|
    ensures multiset(b[..i] + b[i + 1..]) == multiset(b) - multiset{b[i]}
  {
    assert b == b[..i] + [b[i]] + b[i + 1..];
  }

  lemma FieldsTextAppend(m: map<string, string>, a: seq<string>, b: seq<string>)
    ensures FieldsText(m, a + b) == FieldsText(m, a) + FieldsText(m, b)
  {
    PairsAppend(m, a, b);
    TerminatedAppend(Pairs(m, a), Pairs(m, b));
  }

  /** Taking one key out of the visit order takes exactly its field's characters out. */
  lemma FieldsTextRemoveAt(m: map<string, string>, b: seq<string>, i: nat)
    requires i < |b|
    ensures multiset(FieldsText(m, b))
         == multiset(Field(b[i], Lookup(m, b[i]))) + multiset(FieldsText(m, b[..i] + b[i + 1..]))
  {
    var x, y := b[..i], b[i + 1..];
    assert b == x + ([b[i]] + y);
    FieldsTextAppend(m, x, [b[i]] + y);
    FieldsTextAppend(m, [b[i]], y);
    FieldsTextAppend(m, x, y);
    FieldsTextSingle(m, b[i]);
  }

  lemma FieldsTextSingle(m: map<string, string>, k: string)
    ensures FieldsText(m, [k]) == Field(k, Lookup(m, k))
  {
    var p := Pair(k, Lookup(m, k));
    assert Pairs(m, [k]) == [p];
    assert Terminated([p]) == p + [SOH] + Terminated([]);
  }

  lemma FieldsTextRemoveFirst(m: map<string, string>, a: seq<string>)
    requires a != []
    ensures multiset(FieldsText(m, a)) == multiset(Field(a[0], Lookup(m, a[0]))) + multiset(FieldsText(m, a[1..]))
  {
    FieldsTextRemoveAt(m, a, 0);
    assert a[..0] + a[1..] == a[1..];
  }

  lemma SameParts<T>(x: multiset<T>, y: multiset<T>, f: multiset<T>, rx: multiset<T>, ry: multiset<T>)
    requires x == f + rx && y == f + ry && rx == ry
    ensures x == y
  {
  }

  /** Visiting the keys in another order permutes the characters of the rendered fields. */
  lemma {:induction false} FieldsTextPermutation(m: map<string, string>, a: seq<string>, b: seq<string>)
    requires multiset(a) == multiset(b)
    ensures multiset(FieldsText(m, a)) == multiset(FieldsText(m, b))
  {
    if a != [] {
      var k := a[0];
      assert k in multiset(b);
      var i :| 0 <= i < |b| && b[i] == k;
      var rest := b[..i] + b[i + 1..];
      PermutationTail(a, b, i);
      FieldsTextPermutation(m, a[1..], rest);
      FieldsTextRemoveFirst(m, a);
      FieldsTextRemoveAt(m, b, i);
      SameParts(multiset(FieldsText(m, a)), multiset(FieldsText(m, b)), multiset(Field(k, Lookup(m, k))),
                multiset(FieldsText(m, a[1..])), multiset(FieldsText(m, rest)));
    }
  }

  /** Two maps with the same keys and the same value at each key are equal. */
  lemma MapsAgree(a: map<string, string>, b: map<string, string>)
    requires forall k :: (k in a <==> k in b) && (k in a ==> a[k] == b[k])
    ensures a == b
  {
  }

  /** The sum of the byte values of `s`. */
  function ByteSum(s: string): nat
  {
    if s == [] then 0 else s[0] as nat + ByteSum(s[1..])
  }

  lemma {:induction false} ByteSumAppend(a: string, b: string)
    ensures ByteSum(a + b) == ByteSum(a) + ByteSum(b)
  {
    if a == [] {
      assert a + b == b;
    } else {
      assert (a + b)[0] == a[0] && (a + b)[1..] == a[1..] + b;
      ByteSumAppend(a[1..], b);
    }
  }

  /** Texts made of parts with the same lengths and byte sums have the same length and checksum. */
  lemma ChecksumOfParts(a1: string, b1: string, a2: string, b2: string)
    requires |a1| == |a2| && ByteSum(a1) == ByteSum(a2)
    requires |b1| == |b2| && ByteSum(b1) == ByteSum(b2)
    ensures |a1 + b1| == |a2 + b2|
    ensures Checksum3(a1 + b1) == Checksum3(a2 + b2)
  {
    ByteSumAppend(a1, b1);
    ByteSumAppend(a2, b2);
    SameSumSameChecksum(a1 + b1, a2 + b2);
  }

  /** Texts with the same byte sum have the same checksum. */
  lemma SameSumSameChecksum(x: string, y: string)
    requires ByteSum(x) == ByteSum(y)
    ensures Checksum3(x) == Checksum3(y)
  {
  }

  lemma ByteSumRemoveAt(t: string, i: nat)
    requires i < |t|
    ensures ByteSum(t) == t[i] as nat + ByteSum(t[..i] + t[i + 1..])
  {
    var x, y, c := t[..i], t[i + 1..], t[i];
    var cy := [c] + y;
    assert t == x + cy;
    assert cy[0] == c && cy[1..] == y;
    assert ByteSum(cy) == c as nat + ByteSum(y);
    ByteSumAppend(x, cy);
    ByteSumAppend(x, y);
  }

  /** Taking the first element off one of two permutations, and one equal element off the other,
      leaves two permutations. */
  lemma PermutationTail<T>(s: seq<T>, t: seq<T>, i: nat)
    requires multiset(s) == multiset(t) && s != [] && i < |t| && t[i] == s[0]
    ensures multiset(s[1..]) == multiset(t[..i] + t[i + 1..])
  {
    MultisetRemoveAt(t, i);
    MultisetDropFirst(s);
  }

  lemma MultisetDropFirst<T>(s: seq<T>)
    requires s != []
    ensures multiset(s[1..]) == multiset(s) - multiset{s[0]}
  {
    assert s == [s[0]] + s[1..];
  }

  /** The byte sum depends only on which bytes occur, not on their order. */
  lemma {:induction false} ByteSumPermutation(s: string, t: string)
    requires multiset(s) == multiset(t)
    ensures ByteSum(s) == ByteSum(t)
  {
    if s != [] {
      var c := s[0];
      assert c in multiset(t);
      var i :| 0 <= i < |t| && t[i] == c;
      PermutationTail(s, t, i);
      ByteSumPermutation(s[1..], t[..i] + t[i + 1..]);
      ByteSumRemoveAt(t, i);
    }
  }

  /** Lengths and byte sums of rendered fields are the same for every iteration order of a key set. */
  lemma FieldsTextOrderIndependent(m: map<string, string>, a: seq<string>, b: seq<string>, s: set<string>)
    requires IsOrdering(a, s) && IsOrdering(b, s)
    ensures |FieldsText(m, a)| == |FieldsText(m, b)|
    ensures ByteSum(FieldsText(m, a)) == ByteSum(FieldsText(m, b))
  {
    OrderingsArePermutations(a, b, s);
    FieldsTextPermutation(m, a, b);
    ByteSumPermutation(FieldsText(m, a), FieldsText(m, b));
    assert |multiset(FieldsText(m, a))| == |FieldsText(m, a)|;
    assert |multiset(FieldsText(m, b))| == |FieldsText(m, b)|;
  }

  /** The rendered length of a map is that of its other keys plus the field of `k`, if it has one. */
  lemma FieldsTextSplitKey(m: map<string, string>, a: seq<string>, k: string)
    requires IsOrdering(a, m.Keys)
    ensures |FieldsText(m, a)| == |FieldsText(m, Without(a, {k}))| + (if k in m then |Field(k, m[k])| else 0)
  {
    var o := Without(a, {k});
    WithoutOrdering(a, m.Keys, {k});
    if k in m {
      assert IsOrdering([k], {k});
      OrderingAppend(o, m.Keys - {k}, [k], {k});
      assert (m.Keys - {k}) + {k} == m.Keys;
      FieldsTextOrderIndependent(m, a, o + [k], m.Keys);
      FieldsTextAddKey(m, o, k);
    } else {
      assert m.Keys - {k} == m.Keys;
      FieldsTextOrderIndependent(m, a, o, m.Keys);
    }
  }

  /** Setting `k` to `v` changes the rendered length of a map by the old field of `k` (if any)
      out and the new field in, whatever the two iteration orders. */
  lemma FieldsTextSetKey(d: map<string, string>, k: string, v: string, a: seq<string>, b: seq<string>)
    requires IsOrdering(a, d.Keys) && IsOrdering(b, d.Keys + {k})
    ensures |FieldsText(d[k := v], b)| + (if k in d then |Field(k, d[k])| else 0) == |FieldsText(d, a)| + |Field(k, v)|
  {
    assert d[k := v].Keys == d.Keys + {k};
    FieldsTextSplitKey(d, a, k);
    FieldsTextSplitKey(d[k := v], b, k);
    FieldsTextOtherKeys(d, k, v, a, b);
  }

  /** Setting `k` leaves the fields of the other keys as long as they were. */
  lemma FieldsTextOtherKeys(d: map<string, string>, k: string, v: string, a: seq<string>, b: seq<string>)
    requires IsOrdering(a, d.Keys) && IsOrdering(b, d.Keys + {k})
    ensures |FieldsText(d[k := v], Without(b, {k}))| == |FieldsText(d, Without(a, {k}))|
  {
    var h := d[k := v];
    assert h.Keys == d.Keys + {k};
    WithoutOrdering(a, d.Keys, {k});
    WithoutOrdering(b, h.Keys, {k});
    assert h.Keys - {k} == d.Keys - {k};
    FieldsTextOrderIndependent(h, Without(b, {k}), Without(a, {k}), d.Keys - {k});
    WithoutMembership(a, {k});
    FieldsTextAgree(d, h, Without(a, {k}));
  }


  // ---------------------------------------------------------------------------
  // Splitting text

  /** Rust's `str::split(d)` with a character pattern: the pieces between the occurrences of `d`. */
  function Split(s: string, d: char): (r: seq<string>)
    ensures |r| >= 1
    ensures forall i :: 0 <= i < |r| ==> d !in r[i]
  {
    if s == [] then [""]
    else
      var rest := Split(s[1..], d);
      if s[0] == d then [""] + rest
      else [[s[0]] + rest[0]] + rest[1..]
  }

  /** The pieces of `ps` with one `d` between neighbours; the inverse of `Split`. */
  function Join(ps: seq<string>, d: char): string
    requires |ps| >= 1
  {
    if |ps| == 1 then ps[0] else ps[0] + [d] + Join(ps[1..], d)
  }

  /** Joining the pieces of a split with the delimiter gives back the text. */
  lemma {:induction false} SplitThenJoin(s: string, d: char)
    ensures Join(Split(s, d), d) == s
  {
    if s != [] {
      var rest := Split(s[1..], d);
      SplitThenJoin(s[1..], d);
      assert s == [s[0]] + s[1..];
      if s[0] != d {
        var r := Split(s, d);
        assert r == [[s[0]] + rest[0]] + rest[1..];
        if |rest| == 1 {
          assert Join(r, d) == [s[0]] + rest[0];
        } else {
          assert r[1..] == rest[1..];
          assert Join(r, d) == [s[0]] + rest[0] + [d] + Join(rest[1..], d);
        }
      }
    }
  }

  /** No piece of a split is longer than the text, and when the text holds the delimiter every
      piece is shorter than it. */
  lemma {:induction false} SplitPiecesShorter(s: string, d: char)
    ensures forall i :: 0 <= i < |Split(s, d)| ==> |Split(s, d)[i]| <= |s|
    ensures d in s ==> forall i :: 0 <= i < |Split(s, d)| ==> |Split(s, d)[i]| < |s|
  {
    if s != [] {
      var rest := Split(s[1..], d);
      SplitPiecesShorter(s[1..], d);
      var r := Split(s, d);
      if s[0] == d {
        assert r == [""] + rest;
        forall i | 0 < i < |r| ensures |r[i]| < |s| {
          assert r[i] == rest[i - 1];
        }
      } else {
        assert r == [[s[0]] + rest[0]] + rest[1..];
        assert d in s ==> d in s[1..] by {
          if d in s {
            var k :| 0 <= k < |s| && s[k] == d;
            assert s[1..][k - 1] == d;
          }
        }
        forall i | 0 < i < |r| ensures |r[i]| == |rest[i]| {
          assert r[i] == rest[i];
        }
      }
    }
  }

  /** Rust's `.filter(|&x| !x.is_empty())`. */
  function NonEmpty(ps: seq<string>): seq<string>
  {
    if ps == [] then []
    else (if ps[0] == "" then [] else [ps[0]]) + NonEmpty(ps[1..])
  }

  /** The filter keeps exactly the non-empty pieces. */
  lemma {:induction false} NonEmptyMembership(ps: seq<string>)
    ensures forall p :: p in NonEmpty(ps) <==> p in ps && p != ""
  {
    if ps != [] {
      NonEmptyMembership(ps[1..]);
      assert ps == [ps[0]] + ps[1..];
    }
  }

  lemma {:induction false} SplitAfterPiece(a: string, t: string, d: char)
    requires d !in a
    ensures Split(a + [d] + t, d) == [a] + Split(t, d)
  {
    if a == [] {
      assert a + [d] + t == [d] + t;
      assert ([d] + t)[1..] == t;
    } else {
      assert (a + [d] + t)[1..] == a[1..] + [d] + t;
      SplitAfterPiece(a[1..], t, d);
      assert [a[0]] + a[1..] == a;
    }
  }

  lemma {:induction false} SplitWithoutDelimiter(a: string, d: char)
    requires d !in a
    ensures Split(a, d) == [a]
  {
    if a != [] {
      SplitWithoutDelimiter(a[1..], d);
      assert [a[0]] + a[1..] == a;
    }
  }

  /** Splitting SOH-terminated pieces gives the pieces back, then the split of what follows. */
  lemma {:induction false} SplitTerminated(ps: seq<string>, t: string)
    requires forall i :: 0 <= i < |ps| ==> SOH !in ps[i]
    ensures Split(Terminated(ps) + t, SOH) == ps + Split(t, SOH)
  {
    if ps == [] {
      assert Terminated(ps) + t == t;
    } else {
      var rest := Terminated(ps[1..]) + t;
      calc {
        Split(Terminated(ps) + t, SOH);
        == { assert Terminated(ps) + t == ps[0] + [SOH] + rest; }
        Split(ps[0] + [SOH] + rest, SOH);
        == { SplitAfterPiece(ps[0], rest, SOH); }
        [ps[0]] + Split(rest, SOH);
        == { SplitTerminated(ps[1..], t); }
        [ps[0]] + (ps[1..] + Split(t, SOH));
        == { assert ps == [ps[0]] + ps[1..]; }
        ps + Split(t, SOH);
      }
    }
  }

  lemma {:induction false} NonEmptyAppend(a: seq<string>, b: seq<string>)
    ensures NonEmpty(a + b) == NonEmpty(a) + NonEmpty(b)
  {
    if a == [] {
      assert a + b == b;
    } else {
      assert (a + b)[0] == a[0] && (a + b)[1..] == a[1..] + b;
      NonEmptyAppend(a[1..], b);
    }
  }

  /** The filter on a single piece. */
  lemma NonEmptySingle(p: string)
    ensures NonEmpty([p]) == if p == "" then [] else [p]
  {
    assert [p][1..] == [];
  }

  lemma {:induction false} NonEmptyKeepsAll(ps: seq<string>)
    requires forall i :: 0 <= i < |ps| ==> ps[i] != ""
    ensures NonEmpty(ps) == ps
  {
    if ps != [] {
      NonEmptyKeepsAll(ps[1..]);
    }
  }

  /** The index of the first `c` in `s`, as `str::find(c)` reports it. */
  function IndexOf(s: string, c: char): (r: Option<nat>)
    ensures r.None? <==> c !in s
    ensures r.Some? ==> r.value < |s| && s[r.value] == c && c !in s[..r.value]
  {
    if s == [] then None
    else if s[0] == c then Some(0)
    else match IndexOf(s[1..], c)
      case None => None
      case Some(i) => assert s[..i + 1] == [s[0]] + s[1..][..i]; Some(i + 1)
  }

  /** Rust's `s.splitn(2, c)` when it yields two pieces: the text before the first `c` and everything after it. */
  function SplitOnce(s: string, c: char): Option<(string, string)>
  {
    match IndexOf(s, c)
    case None => None
    case Some(i) => Some((s[..i], s[i + 1..]))
  }

  /** `SplitOnce` fails exactly when `c` is missing, and otherwise cuts `s` at its first `c`. */
  lemma SplitOnceSpec(s: string, c: char)
    ensures SplitOnce(s, c).None? <==> c !in s
    ensures SplitOnce(s, c).Some? ==>
      s == SplitOnce(s, c).value.0 + [c] + SplitOnce(s, c).value.1 && c !in SplitOnce(s, c).value.0
  {
    if IndexOf(s, c).Some? {
      var i := IndexOf(s, c).value;
      assert s == s[..i] + [c] + s[i + 1..];
    }
  }

  lemma SplitOnceField(tag: string, value: string)
    requires '=' !in tag
    ensures SplitOnce(Pair(tag, value), '=') == Some((tag, value))
  {
    var p := Pair(tag, value);
    SplitOnceSpec(p, '=');
    var r := SplitOnce(p, '=');
    assert p[|tag|] == '=';
    var a, b := r.value.0, r.value.1;
    assert p == a + ['='] + b;
    assert forall i :: 0 <= i < |tag| ==> p[i] == tag[i] && p[i] != '=';
    assert forall i :: 0 <= i < |a| ==> p[i] == a[i] && p[i] != '=';
    assert p[|a|] == '=';
    assert |a| == |tag|;
    assert a == p[..|tag|] == tag;
    assert b == p[|tag| + 1..] == value;
  }

  /** `p` occurs in `s` starting at index `i`. */
  predicate OccursAt(s: string, p: string, i: nat)
  {
    i + |p| <= |s| && s[i..i + |p|] == p
  }

  /** The first index at or after `from` where `p` occurs in `s`. */
  function FindFrom(s: string, p: string, from: nat): (r: Option<nat>)
    requires from <= |s|
    ensures r.Some? ==> from <= r.value && OccursAt(s, p, r.value)
    ensures r.Some? ==> forall j :: from <= j < r.value ==> !OccursAt(s, p, j)
    ensures r.None? ==> forall j :: from <= j <= |s| ==> !OccursAt(s, p, j)
    decreases |s| - from
  {
    if from + |p| > |s| then None
    else if s[from..from + |p|] == p then Some(from)
    else if from == |s| then None
    else FindFrom(s, p, from + 1)
  }

  /** Rust's `str::find(p)` with a string pattern: the first index where `p` occurs. */
  function Find(s: string, p: string): (r: Option<nat>)
    ensures r.Some? ==> OccursAt(s, p, r.value) && forall j :: 0 <= j < r.value ==> !OccursAt(s, p, j)
    ensures r.None? ==> forall j :: 0 <= j <= |s| ==> !OccursAt(s, p, j)
  {
    FindFrom(s, p, 0)
  }

  // ---------------------------------------------------------------------------
  // Decimal rendering

  predicate IsDigit(c: char)
  {
    '0' <= c <= '9'
  }

  predicate IsDigits(s: string)
  {
    forall i :: 0 <= i < |s| ==> IsDigit(s[i])
  }

  function DigitChar(d: nat): (c: char)
    requires d < 10
    ensures IsDigit(c) && c as int - '0' as int == d
  {
    ('0' as int + d) as char
  }

  /** The decimal digits of `n` without leading zeros; empty for 0. */
  function Digits(n: nat): (r: string)
    ensures IsDigits(r)
    ensures n == 0 <==> r == ""
    ensures r != "" ==> r[0] != '0'
  {
    if n == 0 then "" else Digits(n / 10) + [DigitChar(n % 10)]
  }

  /** The value of a string of decimal digits (leading zeros allowed); the partner of rendering. */
  function ParseDigits(s: string): nat
    requires IsDigits(s)
  {
    if s == [] then 0 else 10 * ParseDigits(s[..|s| - 1]) + (s[|s| - 1] as int - '0' as int)
  }

  lemma {:induction false} ParseDigitsOfDigits(n: nat)
    ensures ParseDigits(Digits(n)) == n
  {
    if n != 0 {
      ParseDigitsOfDigits(n / 10);
      var s := Digits(n);
      assert s[..|s| - 1] == Digits(n / 10);
    }
  }

  /** `n.to_string()` for an unsigned integer: decimal, no leading zeros, "0" for zero. */
  function NatToString(n: nat): (r: string)
    ensures |r| >= 1 && IsDigits(r)
    ensures r[0] == '0' ==> r == "0"
    ensures ParseDigits(r) == n
  {
    ParseDigitsOfDigits(n);
    if n == 0 then "0" else Digits(n)
  }

  /** Decimal rendering is injective: different numbers give different text. */
  lemma NatToStringInjective(m: nat, n: nat)
    requires NatToString(m) == NatToString(n)
    ensures m == n
  {
  }

  lemma {:induction false} ParseDigitsLeadingZero(s: string)
    requires IsDigits(s)
    ensures IsDigits(['0'] + s) && ParseDigits(['0'] + s) == ParseDigits(s)
  {
    if s != [] {
      assert (['0'] + s)[..|s|] == ['0'] + s[..|s| - 1];
      ParseDigitsLeadingZero(s[..|s| - 1]);
    }
  }

  /** `format!("{:0w$}", ..)` applied to rendered digits: left-pads `s` with '0' up to `width`. */
  function ZeroPad(s: string, width: nat): (r: string)
    requires IsDigits(s)
    ensures IsDigits(r) && ParseDigits(r) == ParseDigits(s)
    ensures |r| == if |s| >= width then |s| else width
    ensures r[|r| - |s|..] == s
    ensures forall i :: 0 <= i < |r| - |s| ==> r[i] == '0'
    decreases width - |s|
  {
    if |s| >= width then s
    else
      ParseDigitsLeadingZero(s);
      ZeroPad(['0'] + s, width)
  }

  /** The three decimal digits of `n < 1000`, zero-padded. */
  function Pad3(n: nat): (r: string)
    requires n < 1000
    ensures |r| == 3 && IsDigits(r)
  {
    [DigitChar(n / 100), DigitChar(n / 10 % 10), DigitChar(n % 10)]
  }

  lemma Pad3Value(n: nat)
    requires n < 1000
    ensures ParseDigits(Pad3(n)) == n
  {
    var r := Pad3(n);
    assert r[..2][..1] == r[..1];
    assert ParseDigits(r[..1]) == n / 100;
    assert ParseDigits(r[..2]) == 10 * (n / 100) + n / 10 % 10 == n / 10;
  }

  /** Digit strings of one length are equal exactly when their values are. */
  lemma {:induction false} ParseDigitsInjective(a: string, b: string)
    requires IsDigits(a) && IsDigits(b) && |a| == |b|
    requires ParseDigits(a) == ParseDigits(b)
    ensures a == b
  {
    if a != [] {
      var n := |a| - 1;
      assert IsDigit(a[n]) && IsDigit(b[n]);
      assert IsDigits(a[..n]) && IsDigits(b[..n]);
      ParseDigitsInjective(a[..n], b[..n]);
      assert a == a[..n] + [a[n]] && b == b[..n] + [b[n]];
    }
  }

  /** `Pad3` is `format!("{:03}", n)`: the decimal rendering of `n` left-padded with '0' to width 3. */
  lemma Pad3IsZeroPad(n: nat)
    requires n < 1000
    ensures Pad3(n) == ZeroPad(NatToString(n), 3)
  {
    DigitsLength(n);
    Pad3Value(n);
    ParseDigitsInjective(Pad3(n), ZeroPad(NatToString(n), 3));
  }

  /** `calculate_checksum`: the byte sum of `s` mod 256 as three zero-padded digits. */
  function Checksum3(s: string): (r: string)
    ensures |r| == 3 && IsDigits(r)
  {
    Pad3(ByteSum(s) % 256)
  }

  /** The checksum text reads back as the byte sum mod 256. */
  lemma Checksum3Value(s: string)
    ensures ParseDigits(Checksum3(s)) == ByteSum(s) % 256
  {
    Pad3Value(ByteSum(s) % 256);
  }

  /** Numbers below 10^k need at most k digits. */
  lemma DigitsLength(n: nat)
    requires n < 1000
    ensures |NatToString(n)| <= 3
    ensures n < 100 ==> |NatToString(n)| <= 2
    ensures n < 10 ==> |NatToString(n)| == 1
  {
    if n >= 10 {
      assert Digits(n) == Digits(n / 10) + [DigitChar(n % 10)];
      if n >= 100 {
        assert Digits(n / 10) == Digits(n / 100) + [DigitChar((n / 10) % 10)];
        assert Digits(n / 100) == Digits(0) + [DigitChar((n / 100) % 10)];
      } else {
        assert Digits(n / 10) == Digits(0) + [DigitChar((n / 10) % 10)];
      }
    }
  }
}
