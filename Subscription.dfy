/** The list helpers of ssrconfig.py, `remove`, `unique` and
    `remove_and_unique`, and the reading of a subscription, `get_urls_by_base64`
    and `get_urls_by_subscribe` without the HTTP request. */
module Subscription {
  import opened Wrappers
  import opened Strings
  import opened Base64

  /** The elements of `source` that are not in `els`, in order. */
  function Removed<T(==)>(source: seq<T>, els: seq<T>): (r: seq<T>)
    ensures |r| <= |source|
    decreases |source|
  {
    if |source| == 0 then []
    else
      var rest := Removed(source[..|source| - 1], els);
      if source[|source| - 1] in els then rest else rest + [source[|source| - 1]]
  }

  /** The first occurrence of each element of `source`, in order. */
  function Uniq<T(==)>(source: seq<T>): (r: seq<T>)
    ensures |r| <= |source|
    decreases |source|
  {
    if |source| == 0 then []
    else
      var rest := Uniq(source[..|source| - 1]);
      if source[|source| - 1] in rest then rest else rest + [source[|source| - 1]]
  }

  /** `remove(source, els)` with `els` already a list. */
  method Remove<T(==)>(source: seq<T>, els: seq<T>) returns (r: seq<T>)
    ensures r == Removed(source, els)
  {
    r := [];
    for i := 0 to |source|
      invariant r == Removed(source[..i], els)
    {
      assert source[..i + 1][..i] == source[..i];
      if source[i] !in els {
        r := r + [source[i]];
      }
    }
    assert source[..|source|] == source;
  }

  /** `unique(source)`. */
  method Unique<T(==)>(source: seq<T>) returns (r: seq<T>)
    ensures r == Uniq(source)
  {
    r := [];
    for i := 0 to |source|
      invariant r == Uniq(source[..i])
    {
      assert source[..i + 1][..i] == source[..i];
      if source[i] !in r {
        r := r + [source[i]];
      }
    }
    assert source[..|source|] == source;
  }

  /** An element of a Python list here: a `str` or `None`. */
  type Item = Option<string>

  /** The `els` argument of `remove`: `None` (the default), a list, or one value. */
  datatype Els = DefaultEls | ListEls(items: seq<Item>) | OneEl(item: string)

  /** The list `remove` compares against: `['', None]` by default. */
  function Exclusions(els: Els): (r: seq<Item>)
    ensures els.DefaultEls? ==> Some("") in r && None in r
  {
    match els
    case DefaultEls => [Some(""), None]
    case ListEls(items) => items
    case OneEl(item) => [Some(item)]
  }

  /** `remove_and_unique(source, els)`. */
  method RemoveAndUnique(source: seq<Item>, els: Els) returns (r: seq<Item>)
    ensures r == Uniq(Removed(source, Exclusions(els)))
  {
    var kept := Remove(source, Exclusions(els));
    r := Unique(kept);
  }

  /** The position of the first occurrence of `x`. */
  function FirstIndex<T(==)>(s: seq<T>, x: T): (k: nat)
    requires x in s
    ensures k < |s| && s[k] == x && x !in s[..k]
  {
    if s[0] == x then 0
    else
      assert x in s[1..];
      var k := FirstIndex(s[1..], x);
      assert s[..k + 1] == [s[0]] + s[1..][..k];
      k + 1
  }

  // ---------------------------------------------------------------- lemmas

  /** `Removed` keeps exactly the elements not excluded. */
  lemma {:induction false} RemovedMembers<T>(source: seq<T>, els: seq<T>, x: T)
    ensures x in Removed(source, els) <==> x in source && x !in els
    decreases |source|
  {
    if |source| > 0 {
      var init := source[..|source| - 1];
      RemovedMembers(init, els, x);
      assert source == init + [source[|source| - 1]];
    }
  }

  /** `Uniq` keeps every element once. */
  lemma {:induction false} UniqMembers<T>(source: seq<T>)
    ensures forall x :: x in Uniq(source) <==> x in source
    ensures forall i, j :: 0 <= i < j < |Uniq(source)| ==> Uniq(source)[i] != Uniq(source)[j]
    decreases |source|
  {
    if |source| > 0 {
      var init := source[..|source| - 1];
      UniqMembers(init);
      assert source == init + [source[|source| - 1]];
    }
  }

  /** `Uniq` lists the elements in the order of their first occurrence. */
  lemma {:induction false} UniqOrder<T>(source: seq<T>)
    ensures forall x :: x in Uniq(source) <==> x in source
    ensures forall i, j :: 0 <= i < j < |Uniq(source)| ==>
              FirstIndex(source, Uniq(source)[i]) < FirstIndex(source, Uniq(source)[j])
    decreases |source|
  {
    UniqMembers(source);
    if |source| > 0 {
      var n := |source| - 1;
      var init := source[..n];
      var u := Uniq(source);
      UniqOrder(init);
      UniqMembers(init);
      assert source == init + [source[n]];
      forall x | x in init ensures FirstIndex(source, x) == FirstIndex(init, x) {
        var k := FirstIndex(init, x);
        assert source[..k] == init[..k];
        FirstIndexAt(source, x, k);
      }
      forall i, j | 0 <= i < j < |u|
        ensures FirstIndex(source, u[i]) < FirstIndex(source, u[j])
      {
        if j == |Uniq(init)| {
          assert u[j] == source[n] && source[n] !in init;
          assert u[i] == Uniq(init)[i];
          FirstIndexAt(source, source[n], n);
        } else {
          assert u[i] == Uniq(init)[i] && u[j] == Uniq(init)[j];
        }
      }
    }
  }

  /** The first occurrence is the one no earlier element matches. */
  lemma FirstIndexAt<T>(s: seq<T>, x: T, k: nat)
    requires k < |s| && s[k] == x && x !in s[..k]
    ensures FirstIndex(s, x) == k
  {
    var m := FirstIndex(s, x);
    assert forall i :: 0 <= i < k ==> s[i] == s[..k][i];
    assert forall i :: 0 <= i < m ==> s[i] == s[..m][i];
  }

  /** Appending elements does not move the first occurrence of one already
      present. */
  lemma FirstIndexPrefix<T>(s: seq<T>, t: seq<T>, x: T)
    requires x in s
    ensures FirstIndex(s + t, x) == FirstIndex(s, x)
  {
    var k := FirstIndex(s, x);
    assert (s + t)[..k] == s[..k];
    FirstIndexAt(s + t, x, k);
  }

  /** `Removed` keeps the elements it keeps in the order of their first
      occurrence in the source. */
  lemma {:induction false} RemovedOrder<T>(source: seq<T>, els: seq<T>, x: T, y: T)
    requires x in Removed(source, els) && y in Removed(source, els)
    requires FirstIndex(Removed(source, els), x) < FirstIndex(Removed(source, els), y)
    ensures x in source && y in source
    ensures FirstIndex(source, x) < FirstIndex(source, y)
    decreases |source|
  {
    RemovedMembers(source, els, x);
    RemovedMembers(source, els, y);
    var n := |source| - 1;
    var init, z := source[..n], source[n];
    assert source == init + [z];
    var kept := Removed(init, els);
    if z in els {
      RemovedOrder(init, els, x, y);
      FirstIndexPrefix(init, [z], x);
      FirstIndexPrefix(init, [z], y);
    } else {
      assert Removed(source, els) == kept + [z];
      if x in kept && y in kept {
        FirstIndexPrefix(kept, [z], x);
        FirstIndexPrefix(kept, [z], y);
        RemovedOrder(init, els, x, y);
        RemovedMembers(init, els, x);
        RemovedMembers(init, els, y);
        FirstIndexPrefix(init, [z], x);
        FirstIndexPrefix(init, [z], y);
      } else if x in kept {
        assert y == z;
        RemovedMembers(init, els, x);
        RemovedMembers(init, els, y);
        FirstIndexPrefix(init, [z], x);
        assert y !in source[..n];
        FirstIndexAt(source, y, n);
      }
    }
  }

  /** The example of a clean-up: repeated entries keep their first place. */
  lemma UniqExample()
    ensures Uniq(["a", "b", "a", "c", "b"]) == ["a", "b", "c"]
  {
    var s := ["a", "b", "a", "c", "b"];
    assert s[..1][..0] == [];
    assert Uniq(s[..1]) == ["a"];
    assert s[..2][..1] == s[..1];
    assert Uniq(s[..2]) == ["a", "b"];
    assert s[..3][..2] == s[..2];
    assert Uniq(s[..3]) == ["a", "b"];
    assert s[..4][..3] == s[..3];
    assert Uniq(s[..4]) == ["a", "b", "c"];
    assert s[..5][..4] == s[..4] && s[..5] == s;
  }

  // ---------------------------------------------------------------- subscriptions

  /** Python strings as list elements. */
  function Lift(xs: seq<string>): (r: seq<Item>)
    ensures |r| == |xs| && forall i :: 0 <= i < |xs| ==> r[i] == Some(xs[i])
  {
    seq(|xs|, i requires 0 <= i < |xs| => Some(xs[i]))
  }

  /** `get_urls_by_base64(text)`: the lines of the decoded text without empty
      ones and repeats, `[]` when it decodes to bytes, `None` for the error
      `decode` raises. A line is never `None`, so of the default exclusions
      only `''` matters. */
  function UrlsByBase64(text: string): (r: Option<seq<string>>)
    ensures r.None? <==> Decode(text).Fail?
    ensures Decode(text).Bytes? ==> r == Some([])
  {
    var d := Decode(text);
    if d.Fail? then None
    else if d.Bytes? then Some([])
    else Some(Uniq(Removed(Split(d.s, "\n"), [""])))
  }

  /** `get_urls_by_subscribe(url)` given the response's status code and text. */
  function UrlsBySubscribe(status: int, body: string): (r: Option<seq<string>>)
    ensures status != 200 ==> r == Some([])
  {
    if status == 200 then UrlsByBase64(body) else Some([])
  }

  /** Lifting commutes with `Removed`, where `None` matches no string. */
  lemma {:induction false} LiftRemoved(xs: seq<string>, els: seq<string>, extra: seq<Item>)
    requires forall i :: 0 <= i < |extra| ==> extra[i].None?
    ensures Lift(Removed(xs, els)) == Removed(Lift(xs), Lift(els) + extra)
    decreases |xs|
  {
    if |xs| > 0 {
      var n := |xs| - 1;
      LiftRemoved(xs[..n], els, extra);
      assert Lift(xs)[..n] == Lift(xs[..n]);
      assert Some(xs[n]) in Lift(els) + extra <==> xs[n] in els;
      var rest := Removed(xs[..n], els);
      assert Lift(rest + [xs[n]]) == Lift(rest) + [Some(xs[n])];
    }
  }

  /** Lifting commutes with `Uniq`. */
  lemma {:induction false} LiftUniq(xs: seq<string>)
    ensures Lift(Uniq(xs)) == Uniq(Lift(xs))
    decreases |xs|
  {
    if |xs| > 0 {
      var n := |xs| - 1;
      LiftUniq(xs[..n]);
      assert Lift(xs)[..n] == Lift(xs[..n]);
      var rest := Uniq(xs[..n]);
      assert Some(xs[n]) in Lift(rest) <==> xs[n] in rest;
      assert Lift(rest + [xs[n]]) == Lift(rest) + [Some(xs[n])];
    }
  }

  /** Cleaning a list of lines with the default exclusions. */
  lemma CleanLines(lines: seq<string>)
    ensures var urls := Uniq(Removed(lines, [""]));
            Lift(urls) == Uniq(Removed(Lift(lines), Exclusions(DefaultEls))) &&
            (forall u :: u in urls <==> u in lines && u != "") &&
            (forall i, j :: 0 <= i < j < |urls| ==> urls[i] != urls[j]) &&
            (forall i, j :: 0 <= i < j < |urls| ==> FirstIndex(lines, urls[i]) < FirstIndex(lines, urls[j]))
  {
    var kept := Removed(lines, [""]);
    var urls := Uniq(kept);
    LiftRemoved(lines, [""], [None]);
    assert Lift([""]) + [None] == Exclusions(DefaultEls);
    LiftUniq(kept);
    UniqMembers(kept);
    UniqOrder(kept);
    forall u ensures u in kept <==> u in lines && u != "" {
      RemovedMembers(lines, [""], u);
    }
    forall i, j | 0 <= i < j < |urls|
      ensures FirstIndex(lines, urls[i]) < FirstIndex(lines, urls[j])
    {
      assert urls[i] in kept && urls[j] in kept;
      RemovedOrder(lines, [""], urls[i], urls[j]);
    }
  }

  /** The urls of a text subscription are `remove_and_unique` of its lines with
      the default exclusions: no empty line, no repeat, every one a line, in the
      order of first occurrence. */
  lemma UrlsClean(text: string)
    requires Decode(text).Text?
    ensures var lines := Split(Decode(text).s, "\n");
            var urls := UrlsByBase64(text).value;
            Lift(urls) == Uniq(Removed(Lift(lines), Exclusions(DefaultEls))) &&
            (forall u :: u in urls <==> u in lines && u != "") &&
            (forall i, j :: 0 <= i < j < |urls| ==> urls[i] != urls[j]) &&
            (forall i, j :: 0 <= i < j < |urls| ==> FirstIndex(lines, urls[i]) < FirstIndex(lines, urls[j]))
  {
    CleanLines(Split(Decode(text).s, "\n"));
  }
}
