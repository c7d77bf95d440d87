/** The auction listing record and the id-keyed deduplication used by the scraper. */
module Items {
  import opened Wrappers

  /** One listing as the scraper returns it. */
  datatype Item = Item(id: string, title: string, url: string, price: Option<string>, image: Option<string>)

  /** The ids occurring in a list of items. */
  function IdSet(xs: seq<Item>): set<string> {
    set i | 0 <= i < |xs| :: xs[i].id
  }

  /** No two positions carry the same id. */
  predicate DistinctIds(xs: seq<Item>) {
    forall i, j :: 0 <= i < j < |xs| ==> xs[i].id != xs[j].id
  }

  predicate Distinct(ks: seq<string>) {
    forall i, j :: 0 <= i < j < |ks| ==> ks[i] != ks[j]
  }

  lemma IdSetSnoc(xs: seq<Item>, x: Item)
    ensures IdSet(xs + [x]) == IdSet(xs) + {x.id}
  {
    var ys := xs + [x];
    assert forall i :: 0 <= i < |xs| ==> ys[i] == xs[i];
    assert ys[|xs|] == x;
  }

  lemma IdSetAppend(xs: seq<Item>, ys: seq<Item>)
    ensures IdSet(xs + ys) == IdSet(xs) + IdSet(ys)
  {
    var zs := xs + ys;
    assert forall i :: 0 <= i < |xs| ==> zs[i] == xs[i];
    assert forall i :: 0 <= i < |ys| ==> zs[|xs| + i] == ys[i];
    forall k | k in IdSet(zs) ensures k in IdSet(xs) + IdSet(ys) {
      var i :| 0 <= i < |zs| && zs[i].id == k;
      if i >= |xs| { assert ys[i - |xs|].id == k; }
    }
  }

  /**
   * The dictionary `{item["id"]: item for item in xs}`: items are inserted left to right,
   * so a later item with an id already present replaces the earlier one.
   */
  function ById(xs: seq<Item>): map<string, Item>
    decreases |xs|
  {
    if xs == [] then map[] else ById(xs[..|xs| - 1])[xs[|xs| - 1].id := xs[|xs| - 1]]
  }

  /** The dictionary has a key per id, and each key maps to an item of xs with that id. */
  lemma {:induction false} ByIdSpec(xs: seq<Item>)
    ensures ById(xs).Keys == IdSet(xs)
    ensures forall k :: k in ById(xs) ==> ById(xs)[k].id == k && ById(xs)[k] in xs
    decreases |xs|
  {
    if xs != [] {
      var init, x := xs[..|xs| - 1], xs[|xs| - 1];
      assert xs == init + [x];
      IdSetSnoc(init, x);
      ByIdSpec(init);
    }
  }

  /** The key order of that dictionary: each id where it first occurs. */
  function FirstIds(xs: seq<Item>): seq<string>
    decreases |xs|
  {
    if xs == [] then []
    else
      var init, x := xs[..|xs| - 1], xs[|xs| - 1];
      if x.id in IdSet(init) then FirstIds(init) else FirstIds(init) + [x.id]
  }

  /** The key order lists every id once. */
  lemma {:induction false} FirstIdsSpec(xs: seq<Item>)
    ensures Distinct(FirstIds(xs))
    ensures forall k :: k in FirstIds(xs) <==> k in IdSet(xs)
    ensures |FirstIds(xs)| == |IdSet(xs)|
    decreases |xs|
  {
    if xs != [] {
      var init, x := xs[..|xs| - 1], xs[|xs| - 1];
      assert xs == init + [x];
      IdSetSnoc(init, x);
      FirstIdsSpec(init);
      if x.id !in IdSet(init) {
        assert |IdSet(init) + {x.id}| == |IdSet(init)| + 1;
      } else {
        assert IdSet(xs) == IdSet(init);
      }
    }
  }

  /**
   * `list({item["id"]: item for item in xs}.values())`: one item per id, ids in order of
   * first occurrence.
   */
  function Dedup(xs: seq<Item>): seq<Item> {
    var ks, m := FirstIds(xs), ById(xs);
    FirstIdsSpec(xs);
    ByIdSpec(xs);
    assert forall i :: 0 <= i < |ks| ==> ks[i] in ks;
    seq(|ks|, i requires 0 <= i < |ks| => m[ks[i]])
  }

  /**
   * Deduplication leaves one item per id, loses no id, adds no item, and so has as many
   * items as there are distinct ids.
   */
  lemma DedupSpec(xs: seq<Item>)
    ensures DistinctIds(Dedup(xs))
    ensures IdSet(Dedup(xs)) == IdSet(xs)
    ensures |Dedup(xs)| == |IdSet(xs)|
    ensures forall x :: x in Dedup(xs) ==> x in xs
  {
    var ks, m, r := FirstIds(xs), ById(xs), Dedup(xs);
    FirstIdsSpec(xs);
    ByIdSpec(xs);
    assert forall i :: 0 <= i < |ks| ==> ks[i] in ks;
    assert forall i :: 0 <= i < |r| ==> r[i].id == ks[i] && r[i] in xs;
    forall k | k in IdSet(xs) ensures k in IdSet(r) {
      assert k in ks;
      var i :| 0 <= i < |ks| && ks[i] == k;
    }
  }

  /** A list that already has distinct ids comes through deduplication unchanged. */
  lemma {:induction false} DedupDistinct(xs: seq<Item>)
    requires DistinctIds(xs)
    ensures Dedup(xs) == xs
  {
    FirstIdsDistinct(xs);
    ByIdDistinct(xs);
    FirstIdsSpec(xs);
  }

  lemma {:induction false} FirstIdsDistinct(xs: seq<Item>)
    requires DistinctIds(xs)
    ensures |FirstIds(xs)| == |xs| && forall i :: 0 <= i < |xs| ==> FirstIds(xs)[i] == xs[i].id
    decreases |xs|
  {
    if xs != [] {
      var init, x := xs[..|xs| - 1], xs[|xs| - 1];
      assert xs == init + [x];
      FirstIdsDistinct(init);
      assert x.id !in IdSet(init);
      assert FirstIds(xs) == FirstIds(init) + [x.id];
    }
  }

  lemma {:induction false} ByIdDistinct(xs: seq<Item>)
    requires DistinctIds(xs)
    ensures forall i :: 0 <= i < |xs| ==> xs[i].id in ById(xs) && ById(xs)[xs[i].id] == xs[i]
    decreases |xs|
  {
    if xs != [] {
      var init, x := xs[..|xs| - 1], xs[|xs| - 1];
      assert xs == init + [x];
      ByIdDistinct(init);
    }
  }
}
