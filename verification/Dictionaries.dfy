/**
 * Dictionary encoding (columnar/src/dictionary.rs): terms get ids in order of arrival, and
 * serialization sorts the terms into a table and maps every id to the rank of its term.
 */
module Dictionaries {
  import opened Bits
  import opened Results
  import opened SortedTables

  // ---- sorting ----

  type Item = (Term, nat)

  predicate SortedByKey(items: seq<Item>) {
    forall i, j | 0 <= i < j < |items| :: !Less(items[j].0, items[i].0)
  }

  function Insert(item: Item, items: seq<Item>): seq<Item> {
    if items == [] || !Less(items[0].0, item.0) then [item] + items else [items[0]] + Insert(item, items[1..])
  }

  function SortByKey(items: seq<Item>): seq<Item> {
    if items == [] then [] else Insert(items[0], SortByKey(items[1..]))
  }

  lemma {:induction false} InsertKeeps(item: Item, items: seq<Item>)
    ensures multiset(Insert(item, items)) == multiset{item} + multiset(items)
  {
    if items != [] && Less(items[0].0, item.0) {
      InsertKeeps(item, items[1..]);
      assert items == [items[0]] + items[1..];
    }
  }

  lemma SortedCons(item: Item, items: seq<Item>)
    requires SortedByKey(items) && (items != [] ==> !Less(items[0].0, item.0))
    ensures SortedByKey([item] + items)
  {
    forall i | 0 <= i < |items|
      ensures !Less(items[i].0, item.0)
    {
      if i > 0 {
        NotLessTransitive(item.0, items[0].0, items[i].0);
      }
    }
  }

  lemma {:induction false} InsertSorted(item: Item, items: seq<Item>)
    requires SortedByKey(items)
    ensures SortedByKey(Insert(item, items))
    ensures Insert(item, items)[0] == item || (items != [] && Insert(item, items)[0] == items[0])
  {
    if items == [] || !Less(items[0].0, item.0) {
      SortedCons(item, items);
    } else {
      InsertSorted(item, items[1..]);
      var rest := Insert(item, items[1..]);
      if Less(item.0, items[0].0) {
        LessTransitive(item.0, items[0].0, item.0);
        LessIrreflexive(item.0);
      }
      SortedCons(items[0], rest);
    }
  }

  lemma {:induction false} SortsByKey(items: seq<Item>)
    ensures SortedByKey(SortByKey(items)) && multiset(SortByKey(items)) == multiset(items)
  {
    if items != [] {
      SortsByKey(items[1..]);
      InsertSorted(items[0], SortByKey(items[1..]));
      InsertKeeps(items[0], SortByKey(items[1..]));
      assert items == [items[0]] + items[1..];
    }
  }

  // ---- the builder ----

  /** The ids are 0 up to the number of terms; `order` lists the terms by id. */
  ghost predicate Numbers(dict: map<Term, nat>, order: seq<Term>) {
    && |order| == |dict|
    && (forall i | 0 <= i < |order| :: order[i] in dict && dict[order[i]] == i)
    && (forall t | t in dict :: dict[t] < |order| && order[dict[t]] == t)
  }

  /** A key above the last one is accepted. */
  method InsertNext(writer: TableWriter, key: Term, ghost before: seq<Term>)
    requires writer.Valid() && writer.Contents() == before && (before == [] || Less(before[|before| - 1], key))
    modifies writer
    ensures writer.Valid() && writer.Contents() == before + [key]
  {
    var ok := writer.Insert(key);
    assert ok;
  }

  /** Hands the keys to the writer, which accepts them all, and notes each id's place. */
  method WriteSorted(items: seq<Item>, writer: TableWriter) returns (mapping: seq<nat>)
    requires writer.Valid() && writer.Contents() == [] && Ascending(Keys(items)) && AreDistinct(items)
    modifies writer
    ensures writer.Valid() && writer.Contents() == Keys(items)
    ensures |mapping| == |items| && forall k | 0 <= k < |items| :: mapping[items[k].1] == k
  {
    mapping := seq(|items|, _ => 0);
    for ord := 0 to |items|
      invariant writer.Valid() && writer.Contents() == Keys(items)[..ord]
      invariant |mapping| == |items| && forall k | 0 <= k < ord :: mapping[items[k].1] == k
    {
      var (key, unorderedId) := items[ord];
      ghost var keys := Keys(items);
      assert keys[ord] == key && (ord > 0 ==> Less(keys[ord - 1], key)) && keys[..ord] + [key] == keys[..ord + 1];
      InsertNext(writer, key, keys[..ord]);
      mapping := mapping[unorderedId := ord];
    }
  }

  class DictionaryBuilder {
    var dict: map<Term, nat>
    ghost var order: seq<Term>

    ghost predicate Valid()
      reads this
    {
      Numbers(dict, order)
    }

    constructor ()
      ensures Valid() && dict == map[]
    {
      dict, order := map[], [];
    }

    /** A term keeps its id; a new term takes the next one, as a 32-bit number. */
    method GetOrAllocateId(term: Term) returns (id: nat)
      requires Valid()
      modifies this
      ensures id == if term in old(dict) then old(dict)[term] else |old(dict)| % U32_LIMIT
      ensures dict == old(dict)[term := id]
      ensures Valid() <==> term in old(dict) || |old(dict)| < U32_LIMIT
      ensures Valid() ==> old(order) <= order
    {
      var nextId := |dict| % U32_LIMIT;
      if term in dict {
        id := dict[term];
      } else {
        id := nextId;
        order := order + [term];
        assert order[|old(dict)|] == term;
      }
      dict := dict[term := id];
    }

    /** The entries, in the order the hash map happens to hold them. */
    method Iter() returns (items: seq<Item>)
      ensures multiset(items) == multiset(dict.Items)
    {
      items := [];
      var rest := dict.Items;
      while rest != {}
        invariant rest <= dict.Items
        invariant multiset(items) + multiset(rest) == multiset(dict.Items)
        decreases |rest|
      {
        var item :| item in rest;
        items, rest := items + [item], rest - {item};
      }
    }

    /** `full` decides where blocks end. */
    method Serialize(full: seq<Delta> -> bool) returns (blocks: seq<Block>, mapping: seq<nat>)
      requires Valid()
      ensures Separated(blocks) && IsRemap(dict, KeysOf(blocks), mapping)
    {
      var items := Iter();
      SortsByKey(items);
      items := SortByKey(items);
      SortedItems(dict, items);
      DistinctIds(dict, order, items);
      var writer := new TableWriter(full);
      mapping := WriteSorted(items, writer);
      writer.FlushBlock();
      blocks := writer.blocks;
      assert KeysOf(blocks) + [] == KeysOf(blocks);
      RemapFromItems(dict, order, items, mapping);
    }
  }

  function Keys(items: seq<Item>): seq<Term> {
    seq(|items|, i requires 0 <= i < |items| => items[i].0)
  }

  /** Distinct ids below the number of items. */
  predicate AreDistinct(items: seq<Item>) {
    && (forall i | 0 <= i < |items| :: items[i].1 < |items|)
    && (forall i, j | 0 <= i < j < |items| :: items[i].1 != items[j].1)
  }

  lemma DistinctIds(dict: map<Term, nat>, order: seq<Term>, items: seq<Item>)
    requires Numbers(dict, order) && Listing(dict, items)
    ensures AreDistinct(items)
  {
    forall i, j | 0 <= i < j < |items|
      ensures items[i].1 != items[j].1
    {
      LessIrreflexive(items[i].0);
      assert Less(Keys(items)[i], Keys(items)[j]);
      assert order[dict[items[i].0]] == items[i].0 && order[dict[items[j].0]] == items[j].0;
    }
  }

  /** Items in key order that list every entry of `dict` once. */
  ghost predicate Listing(dict: map<Term, nat>, items: seq<Item>) {
    && |items| == |dict|
    && (forall i | 0 <= i < |items| :: items[i].0 in dict && dict[items[i].0] == items[i].1)
    && (forall t | t in dict :: (t, dict[t]) in items)
    && Ascending(Keys(items))
  }

  lemma SortedItems(dict: map<Term, nat>, items: seq<Item>)
    requires multiset(items) == multiset(dict.Items) && SortedByKey(items)
    ensures Listing(dict, items)
  {
    assert |multiset(items)| == |items| && |multiset(dict.Items)| == |dict.Items|;
    forall i | 0 <= i < |items|
      ensures items[i].0 in dict && dict[items[i].0] == items[i].1
    {
      assert items[i] in multiset(items);
    }
    forall t | t in dict
      ensures (t, dict[t]) in items
    {
      assert (t, dict[t]) in multiset(dict.Items);
    }
    forall i, j | 0 <= i < j < |items|
      ensures Less(items[i].0, items[j].0)
    {
      LessTotal(items[i].0, items[j].0);
      OncePerItem(dict, items, i, j);
    }
  }

  lemma OncePerItem(dict: map<Term, nat>, items: seq<Item>, i: nat, j: nat)
    requires multiset(items) == multiset(dict.Items) && i < j < |items|
    ensures items[i].0 != items[j].0
  {
    var a, b, c := items[..i], items[i + 1..j], items[j + 1..];
    assert items == a + [items[i]] + b + [items[j]] + c;
    assert items[i] in multiset(items) && items[j] in multiset(items);
    assert multiset(dict.Items)[items[i]] <= 1;
  }

  // ---- the remapping ----

  /** `keys` are the terms in ascending order, and each term's id is mapped to its place. */
  ghost predicate IsRemap(dict: map<Term, nat>, keys: seq<Term>, mapping: seq<nat>) {
    && |keys| == |mapping| == |dict|
    && Ascending(keys)
    && (forall k | 0 <= k < |keys| :: keys[k] in dict)
    && (forall t | t in dict :: dict[t] < |mapping| && mapping[dict[t]] < |keys| && keys[mapping[dict[t]]] == t)
  }

  lemma RemapFromItems(dict: map<Term, nat>, order: seq<Term>, items: seq<Item>, mapping: seq<nat>)
    requires Numbers(dict, order) && Listing(dict, items) && |mapping| == |items|
    requires forall k | 0 <= k < |items| :: items[k].1 < |mapping| && mapping[items[k].1] == k
    ensures IsRemap(dict, Keys(items), mapping)
  {
    forall t | t in dict
      ensures dict[t] < |mapping| && mapping[dict[t]] < |items| && items[mapping[dict[t]]].0 == t
    {
      assert (t, dict[t]) in items;
      var k :| 0 <= k < |items| && items[k] == (t, dict[t]);
    }
  }

  /** Ordinals compare as the terms do, byte by byte. */
  lemma OrderPreserved(dict: map<Term, nat>, keys: seq<Term>, mapping: seq<nat>, a: Term, b: Term)
    requires IsRemap(dict, keys, mapping) && a in dict && b in dict
    ensures Less(a, b) <==> mapping[dict[a]] < mapping[dict[b]]
  {
    var i, j := mapping[dict[a]], mapping[dict[b]];
    if j <= i && Less(a, b) {
      if j < i {
        LessTransitive(a, b, a);
      }
      LessIrreflexive(a);
    }
  }

  /** Every ordinal below the number of terms is the image of exactly one id. */
  lemma RemapIsBijection(dict: map<Term, nat>, order: seq<Term>, keys: seq<Term>, mapping: seq<nat>)
    requires Numbers(dict, order) && IsRemap(dict, keys, mapping)
    ensures forall i | 0 <= i < |mapping| :: mapping[i] < |mapping|
    ensures forall i, j | 0 <= i < j < |mapping| :: mapping[i] != mapping[j]
    ensures forall ord | 0 <= ord < |mapping| :: ord in mapping
  {
    forall i | 0 <= i < |mapping|
      ensures mapping[i] < |mapping| && keys[mapping[i]] == order[i]
    {
      assert dict[order[i]] == i;
    }
    forall i, j | 0 <= i < j < |mapping|
      ensures mapping[i] != mapping[j]
    {
      assert dict[order[i]] == i && dict[order[j]] == j;
    }
    forall ord | 0 <= ord < |mapping|
      ensures ord in mapping
    {
      var id := dict[keys[ord]];
      var place := mapping[id];
      LessIrreflexive(keys[ord]);
      assert keys[place] == keys[ord];
      assert place == ord;
    }
  }

  /** The table answers with the ordinal the mapping gives, and with nothing for other terms. */
  method LookUp(dict: map<Term, nat>, blocks: seq<Block>, mapping: seq<nat>, term: Term) returns (r: Option<nat>)
    requires Separated(blocks) && IsRemap(dict, KeysOf(blocks), mapping)
    ensures r == if term in dict then Some(mapping[dict[term]]) else None
  {
    r := TermOrd(blocks, term);
    LessIrreflexive(term);
  }
}
