/** `Encode`: the URL-encoded form of a parameter set, "k1=v1&k1=v2&k2=v3",
    with keys in ascending order and each key's values in stored order.

    Percent-escaping is a parameter `escape`; only the sort-and-join
    structure is modelled. `ParseQuery` and `Collect` are a reference
    decoder, used to state that the encoding loses nothing but keys
    without values. */
module QueryEncoding {
  import opened Wrappers
  import opened StringOrder
  import opened URLParams

  /** One emitted `key=value` pair, before escaping. */
  datatype Pair = Pair(key: string, value: string)

  /** `keys` lists the keys of `u`, each once, in ascending order. */
  ghost predicate KeyOrder(u: Params, keys: seq<string>)
  {
    && StrictlySorted(keys)
    && forall k :: k in keys <==> k in u
  }

  /** The pairs of one key, one per stored value. */
  function Group(key: string, values: seq<string>): seq<Pair>
  {
    seq(|values|, i requires 0 <= i < |values| => Pair(key, values[i]))
  }

  /** The pairs of `u`, key by key in the order of `keys`. */
  function Pairs(u: Params, keys: seq<string>): seq<Pair>
    requires forall k | k in keys :: k in u
  {
    if |keys| == 0 then []
    else Pairs(u, keys[..|keys| - 1]) + Group(keys[|keys| - 1], u[keys[|keys| - 1]])
  }

  /** The values paired with `x`, in the order they occur in `ps`. */
  function ValuesFor(ps: seq<Pair>, x: string): seq<string>
  {
    if |ps| == 0 then []
    else ValuesFor(ps[..|ps| - 1], x)
         + (if ps[|ps| - 1].key == x then [ps[|ps| - 1].value] else [])
  }

  /** Joins `parts` with `sep` between consecutive parts. */
  function Join(parts: seq<string>, sep: char): string
  {
    if |parts| == 0 then ""
    else if |parts| == 1 then parts[0]
    else parts[0] + [sep] + Join(parts[1..], sep)
  }

  function Item(p: Pair, escape: string -> string): string
  {
    escape(p.key) + "=" + escape(p.value)
  }

  function Items(ps: seq<Pair>, escape: string -> string): seq<string>
  {
    seq(|ps|, i requires 0 <= i < |ps| => Item(ps[i], escape))
  }

  /** The query string of a list of pairs. */
  function Render(ps: seq<Pair>, escape: string -> string): string
  {
    Join(Items(ps, escape), '&')
  }

  /** `s` is the encoding of `u`: the pairs of `u` in ascending key order,
      rendered and joined by '&'. */
  ghost predicate IsEncoding(u: Params, escape: string -> string, s: string)
  {
    exists keys :: KeyOrder(u, keys) && s == Render(Pairs(u, keys), escape)
  }

  /** The keys of `u` sorted in ascending order. */
  method SortedKeys(u: Params) returns (keys: seq<string>)
    ensures KeyOrder(u, keys)
  {
    keys := [];
    var rest := u.Keys;
    while rest != {}
      invariant StrictlySorted(keys)
      invariant forall k :: k in keys <==> k in u && k !in rest
      invariant rest <= u.Keys
      decreases |rest|
    {
      var k :| k in rest;
      keys := Insert(keys, k);
      rest := rest - {k};
    }
  }

  /** Encodes `u`: for each key in ascending order, one `key=value` per
      stored value, separated by '&'. A key with no values emits nothing. */
  method Encode(u: Params, escape: string -> string) returns (s: string)
    ensures IsEncoding(u, escape, s)
    ensures s == "" <==> forall k | k in u :: u[k] == []
  {
    var keys := SortedKeys(u);
    s := "";
    ghost var done: seq<Pair> := [];
    for i := 0 to |keys|
      invariant done == Pairs(u, keys[..i])
      invariant s == Render(done, escape)
    {
      var k := keys[i];
      var vs := u[k];
      var escapedKey := escape(k);
      assert done + Group(k, vs[..0]) == done;
      for j := 0 to |vs|
        invariant s == Render(done + Group(k, vs[..j]), escape)
      {
        ghost var before := done + Group(k, vs[..j]);
        assert done + Group(k, vs[..j + 1]) == before + [Pair(k, vs[j])];
        RenderSnoc(before, Pair(k, vs[j]), escape);
        RenderEmpty(before, escape);
        var item := escapedKey + "=" + escape(vs[j]);
        assert item == Item(Pair(k, vs[j]), escape);
        if |s| > 0 {
          s := s + "&";
        }
        s := s + item;
      }
      assert vs[..|vs|] == vs;
      assert keys[..i + 1][..i] == keys[..i];
      done := done + Group(k, vs);
    }
    assert keys[..|keys|] == keys;
    RenderEmpty(done, escape);
    PairsEmpty(u, keys);
  }

  lemma {:induction false} JoinSnoc(parts: seq<string>, p: string, sep: char)
    requires |parts| > 0
    ensures Join(parts + [p], sep) == Join(parts, sep) + [sep] + p
    decreases |parts|
  {
    if |parts| > 1 {
      assert (parts + [p])[1..] == parts[1..] + [p];
      JoinSnoc(parts[1..], p, sep);
    }
  }

  /** Appending a pair appends '&' and its item, or just the item to "". */
  lemma RenderSnoc(ps: seq<Pair>, p: Pair, escape: string -> string)
    ensures Render(ps + [p], escape)
            == if |ps| == 0 then Item(p, escape) else Render(ps, escape) + "&" + Item(p, escape)
  {
    assert Items(ps + [p], escape) == Items(ps, escape) + [Item(p, escape)];
    if |ps| > 0 {
      JoinSnoc(Items(ps, escape), Item(p, escape), '&');
    }
  }

  /** Every item contains '=', so only the empty list renders to "". */
  lemma RenderEmpty(ps: seq<Pair>, escape: string -> string)
    ensures Render(ps, escape) == "" <==> |ps| == 0
  {
    if |ps| > 0 {
      var items := Items(ps, escape);
      assert '=' in items[0];
      if |items| > 1 {
        assert Join(items, '&') == items[0] + ['&'] + Join(items[1..], '&');
      }
    }
  }

  /** The pairs of `u` are empty exactly when no listed key has a value. */
  lemma {:induction false} PairsEmpty(u: Params, keys: seq<string>)
    requires forall k | k in keys :: k in u
    ensures |Pairs(u, keys)| == 0 <==> forall k | k in keys :: u[k] == []
    decreases |keys|
  {
    if |keys| > 0 {
      var init := keys[..|keys| - 1];
      assert forall k | k in keys :: k in init || k == keys[|keys| - 1];
      PairsEmpty(u, init);
    }
  }

  lemma {:induction false} ValuesForConcat(a: seq<Pair>, b: seq<Pair>, x: string)
    ensures ValuesFor(a + b, x) == ValuesFor(a, x) + ValuesFor(b, x)
    decreases |b|
  {
    if |b| == 0 {
      assert a + b == a;
    } else {
      var init := b[..|b| - 1];
      assert (a + b)[..|a + b| - 1] == a + init;
      ValuesForConcat(a, init, x);
    }
  }

  lemma {:induction false} ValuesForGroup(key: string, values: seq<string>, x: string)
    ensures ValuesFor(Group(key, values), x) == if x == key then values else []
    decreases |values|
  {
    if |values| > 0 {
      var init := values[..|values| - 1];
      assert Group(key, values)[..|values| - 1] == Group(key, init);
      ValuesForGroup(key, init, x);
      assert values == init + [values[|values| - 1]];
    }
  }

  /** Each key's values appear in the encoding in their stored order, and a
      key not listed contributes nothing. */
  lemma {:induction false} PairsValues(u: Params, keys: seq<string>, x: string)
    requires StrictlySorted(keys)
    requires forall k | k in keys :: k in u
    ensures ValuesFor(Pairs(u, keys), x) == if x in keys then u[x] else []
    decreases |keys|
  {
    if |keys| > 0 {
      var init := keys[..|keys| - 1];
      var last := keys[|keys| - 1];
      assert forall k :: k in keys <==> k in init || k == last;
      LessIrreflexive(last);
      forall i | 0 <= i < |init|
        ensures init[i] != last
      {
        assert Less(keys[i], keys[|keys| - 1]);
      }
      PairsValues(u, init, x);
      ValuesForConcat(Pairs(u, init), Group(last, u[last]), x);
      ValuesForGroup(last, u[last], x);
    }
  }

  /** The pairs of `u` come grouped by key, in ascending key order. */
  lemma {:induction false} PairsOrdered(u: Params, keys: seq<string>)
    requires StrictlySorted(keys)
    requires forall k | k in keys :: k in u
    ensures forall i | 0 <= i < |Pairs(u, keys)| :: Pairs(u, keys)[i].key in keys
    ensures forall i, j | 0 <= i < j < |Pairs(u, keys)| ::
              LessEq(Pairs(u, keys)[i].key, Pairs(u, keys)[j].key)
    decreases |keys|
  {
    if |keys| > 0 {
      var init := keys[..|keys| - 1];
      var last := keys[|keys| - 1];
      PairsOrdered(u, init);
      var front := Pairs(u, init);
      var r := Pairs(u, keys);
      assert r == front + Group(last, u[last]);
      forall i | 0 <= i < |front|
        ensures Less(front[i].key, last)
      {
        var m :| 0 <= m < |init| && init[m] == front[i].key;
        assert keys[m] == front[i].key;
      }
    }
  }

  /** Go's `strings.Cut`: the text before the first `sep`, the text after it,
      and whether `sep` occurs at all. */
  function Cut(s: string, sep: char): (r: (string, string, bool))
    ensures r.2 ==> s == r.0 + [sep] + r.1 && sep !in r.0
    ensures !r.2 ==> r.0 == s && r.1 == "" && sep !in s
    decreases |s|
  {
    if |s| == 0 then ("", "", false)
    else if s[0] == sep then ("", s[1..], true)
    else
      var c := Cut(s[1..], sep);
      ([s[0]] + c.0, c.1, c.2)
  }

  lemma {:induction false} CutAt(a: string, sep: char, b: string)
    requires sep !in a
    ensures Cut(a + [sep] + b, sep) == (a, b, true)
    decreases |a|
  {
    if |a| > 0 {
      assert (a + [sep] + b)[1..] == a[1..] + [sep] + b;
      CutAt(a[1..], sep, b);
      assert a == [a[0]] + a[1..];
    }
  }

  lemma CutAbsent(a: string, sep: char)
    requires sep !in a
    ensures Cut(a, sep) == (a, "", false)
  {
  }

  /** A reference decoder in the manner of Go's `url.ParseQuery`: split at
      '&', skip empty segments, split each segment at its first '='. */
  function ParseQuery(s: string, unescape: string -> string): seq<Pair>
    decreases |s|
  {
    if |s| == 0 then []
    else
      var c := Cut(s, '&');
      var tail := ParseQuery(c.1, unescape);
      if c.0 == "" then tail
      else
        var kv := Cut(c.0, '=');
        [Pair(unescape(kv.0), unescape(kv.1))] + tail
  }

  /** Builds the parameter set of a pair list, appending values key by key. */
  function Collect(ps: seq<Pair>): (m: Params)
    ensures forall x :: x in m <==> ValuesFor(ps, x) != []
    ensures forall x | x in m :: m[x] == ValuesFor(ps, x)
  {
    if |ps| == 0 then map[]
    else
      var m := Collect(ps[..|ps| - 1]);
      var p := ps[|ps| - 1];
      m[p.key := (if p.key in m then m[p.key] else []) + [p.value]]
  }

  /** An escaping whose output never contains the separators. */
  ghost predicate SeparatorFree(escape: string -> string)
  {
    forall x :: '&' !in escape(x) && '=' !in escape(x)
  }

  ghost predicate Inverts(unescape: string -> string, escape: string -> string)
  {
    forall x :: unescape(escape(x)) == x
  }

  /** Parsing a rendered pair list gives the list back. */
  lemma {:induction false} ParseRender(ps: seq<Pair>, escape: string -> string, unescape: string -> string)
    requires SeparatorFree(escape) && Inverts(unescape, escape)
    ensures ParseQuery(Render(ps, escape), unescape) == ps
    decreases |ps|
  {
    if |ps| > 0 {
      var p := ps[0];
      var item := Item(p, escape);
      var items := Items(ps, escape);
      assert items[0] == item;
      assert '&' !in item;
      assert |item| > 0;
      CutAt(escape(p.key), '=', escape(p.value));
      if |ps| == 1 {
        CutAbsent(item, '&');
        assert Render(ps, escape) == item;
      } else {
        assert items[1..] == Items(ps[1..], escape);
        assert Render(ps, escape) == item + ['&'] + Render(ps[1..], escape);
        CutAt(item, '&', Render(ps[1..], escape));
        ParseRender(ps[1..], escape, unescape);
      }
      assert ps == [p] + ps[1..];
    }
  }

  /** The entries of `u` that hold at least one value. */
  function NonEmpty(u: Params): Params
  {
    map k | k in u && u[k] != [] :: u[k]
  }

  /** Decoding an encoding gives back the parameter set, except for keys
      that hold no values; in particular `Get` answers the same. */
  lemma EncodeRoundTrip(u: Params, escape: string -> string, unescape: string -> string, s: string)
    requires IsEncoding(u, escape, s)
    requires SeparatorFree(escape) && Inverts(unescape, escape)
    ensures Collect(ParseQuery(s, unescape)) == NonEmpty(u)
    ensures forall k :: Get(Collect(ParseQuery(s, unescape)), k) == Get(u, k)
  {
    var keys :| KeyOrder(u, keys) && s == Render(Pairs(u, keys), escape);
    ParseRender(Pairs(u, keys), escape, unescape);
    CollectPairs(u, keys);
  }

  /** Collecting the pairs of `u` rebuilds its non-empty entries. */
  lemma CollectPairs(u: Params, keys: seq<string>)
    requires KeyOrder(u, keys)
    ensures Collect(Pairs(u, keys)) == NonEmpty(u)
  {
    var ps := Pairs(u, keys);
    var m := Collect(ps);
    var n := NonEmpty(u);
    forall x
      ensures x in m <==> x in n
      ensures x in m ==> m[x] == n[x]
    {
      PairsValues(u, keys, x);
      assert ValuesFor(ps, x) == if x in u then u[x] else [];
    }
    assert m == n;
  }

  /** The encoding of a parameter set is unique: the result does not depend
      on the order in which the map's keys were visited. */
  lemma EncodingDeterministic(u: Params, escape: string -> string, s1: string, s2: string)
    requires IsEncoding(u, escape, s1) && IsEncoding(u, escape, s2)
    ensures s1 == s2
  {
    var keys1 :| KeyOrder(u, keys1) && s1 == Render(Pairs(u, keys1), escape);
    var keys2 :| KeyOrder(u, keys2) && s2 == Render(Pairs(u, keys2), escape);
    SortedUnique(keys1, keys2);
  }

  /** Keys come out sorted whatever order they were inserted in, for any
      escaping that leaves these plain strings unchanged (as percent-escaping
      does). */
  lemma EncodeSortsKeys(escape: string -> string, s: string)
    requires escape("a") == "a" && escape("b") == "b" && escape("1") == "1" && escape("2") == "2"
    requires IsEncoding(Set(Set(map[], "b", "2"), "a", "1"), escape, s)
    ensures s == "a=1&b=2"
  {
    var u := Set(Set(map[], "b", "2"), "a", "1");
    var keys :| KeyOrder(u, keys) && s == Render(Pairs(u, keys), escape);
    assert Less("a", "b");
    SortedUnique(keys, ["a", "b"]);
    RenderTwoKeys(escape);
  }

  lemma RenderTwoKeys(escape: string -> string)
    requires escape("a") == "a" && escape("b") == "b" && escape("1") == "1" && escape("2") == "2"
    ensures Render(Pairs(Set(Set(map[], "b", "2"), "a", "1"), ["a", "b"]), escape) == "a=1&b=2"
  {
    var u := Set(Set(map[], "b", "2"), "a", "1");
    assert ["a", "b"][..1] == ["a"];
    var ps := [Pair("a", "1"), Pair("b", "2")];
    assert Pairs(u, ["a"]) == [Pair("a", "1")];
    assert Pairs(u, ["a", "b"]) == ps;
    assert Item(ps[0], escape) == "a=1";
    assert Item(ps[1], escape) == "b=2";
    var items := ["a=1", "b=2"];
    assert Items(ps, escape) == items;
    assert Join(items[1..], '&') == "b=2";
  }

  /** The values of one key keep their stored order; they are not sorted.
      Holds for any escaping that leaves these plain strings unchanged. */
  lemma EncodeKeepsValueOrder(escape: string -> string, s: string)
    requires escape("x") == "x" && escape("3") == "3" && escape("1") == "1" && escape("2") == "2"
    requires IsEncoding(SetMulti(map[], "x", ["3", "1", "2"]), escape, s)
    ensures s == "x=3&x=1&x=2"
  {
    var u := SetMulti(map[], "x", ["3", "1", "2"]);
    var keys :| KeyOrder(u, keys) && s == Render(Pairs(u, keys), escape);
    SortedUnique(keys, ["x"]);
    RenderOneKey(escape);
  }

  lemma RenderOneKey(escape: string -> string)
    requires escape("x") == "x" && escape("3") == "3" && escape("1") == "1" && escape("2") == "2"
    ensures Render(Pairs(SetMulti(map[], "x", ["3", "1", "2"]), ["x"]), escape) == "x=3&x=1&x=2"
  {
    var u := SetMulti(map[], "x", ["3", "1", "2"]);
    var ps := [Pair("x", "3"), Pair("x", "1"), Pair("x", "2")];
    assert Pairs(u, ["x"]) == ps;
    assert Item(ps[0], escape) == "x=3";
    assert Item(ps[1], escape) == "x=1";
    assert Item(ps[2], escape) == "x=2";
    var items := ["x=3", "x=1", "x=2"];
    assert Items(ps, escape) == items;
    assert Join(items[2..], '&') == "x=2";
    assert Join(items[1..], '&') == "x=1&x=2";
  }
}
