/**
  The static `imageMetadata` table (script.js:1-12): known pixel sizes of
  the photos that ship with the site, keyed by file name. It pre-sizes
  gallery images and, sorted by key, is the list shown when the directory
  listing cannot be used.
 */
module Metadata {
  import opened Strings
  import opened Extensions

  datatype Dimensions = Dimensions(width: nat, height: nat)

  /** The table's entries in the order the object literal writes them. */
  const Entries: seq<(string, Dimensions)> := [
    ("photo-01.jpg", Dimensions(2048, 1538)),
    ("photo-02.jpg", Dimensions(2027, 2700)),
    ("photo-03.jpg", Dimensions(2700, 2027)),
    ("photo-04.jpg", Dimensions(2700, 2027)),
    ("photo-05.jpg", Dimensions(2027, 2700)),
    ("photo-06.jpg", Dimensions(2700, 2027)),
    ("photo-07.jpg", Dimensions(2027, 2700)),
    ("photo-08.jpg", Dimensions(2700, 2027)),
    ("photo-09.jpg", Dimensions(2700, 2027))
  ]

  /** No entry after the `i`-th has the same key. */
  predicate LastWithKey(entries: seq<(string, Dimensions)>, i: int)
    requires 0 <= i < |entries|
  {
    forall j :: i < j < |entries| ==> entries[j].0 != entries[i].0
  }

  /** An object literal as a map: a later entry with the same key replaces an earlier one. */
  function TableOf(entries: seq<(string, Dimensions)>): (m: map<string, Dimensions>)
    ensures m.Keys == set e | e in entries :: e.0
    ensures forall i :: 0 <= i < |entries| && LastWithKey(entries, i) ==> m[entries[i].0] == entries[i].1
  {
    if |entries| == 0 then map[]
    else
      var init, last := entries[..|entries| - 1], entries[|entries| - 1];
      var m := TableOf(init)[last.0 := last.1];
      assert entries == init + [last];
      assert forall i :: 0 <= i < |entries| && LastWithKey(entries, i) ==> m[entries[i].0] == entries[i].1 by {
        forall i | 0 <= i < |entries| && LastWithKey(entries, i)
          ensures m[entries[i].0] == entries[i].1
        {
          if i < |init| {
            assert LastWithKey(init, i);
          }
        }
      }
      m
  }

  /** `imageMetadata` itself. */
  const Table: map<string, Dimensions> := TableOf(Entries)

  /**
    The keys in the order they are written. When no key is written twice
    (`KeysDistinct`), this is the order `Object.keys` reports them.
   */
  function KeysOf(entries: seq<(string, Dimensions)>): (ks: seq<string>)
    ensures |ks| == |entries|
    ensures forall i :: 0 <= i < |entries| ==> ks[i] == entries[i].0
  {
    seq(|entries|, i requires 0 <= i < |entries| => entries[i].0)
  }

  /** The names the listing falls back to: `Object.keys(imageMetadata).sort()` (script.js:42). */
  function FallbackNames(): (r: seq<string>)
    ensures Sorted(r)
    ensures multiset(r) == multiset(KeysOf(Entries))
  {
    Sort(KeysOf(Entries))
  }

  /** No key of the literal is written twice. */
  lemma KeysDistinct()
    ensures forall i, j :: 0 <= i < j < |Entries| ==> Entries[i].0 != Entries[j].0
  {
    forall i, j | 0 <= i < j < |Entries|
      ensures Entries[i].0 != Entries[j].0
    {
      assert Entries[j].0[7] != Entries[i].0[7];
    }
  }

  /** Every key of the literal is written once, so each entry's size is the one the table holds. */
  lemma TableLookup(i: int)
    requires 0 <= i < |Entries|
    ensures Entries[i].0 in Table && Table[Entries[i].0] == Entries[i].1
  {
    KeysDistinct();
    assert LastWithKey(Entries, i);
  }

  /** Each key of the table appears in the fallback list exactly once. */
  lemma FallbackNamesOnce()
    ensures forall k :: k in Table ==> multiset(FallbackNames())[k] == 1
  {
    KeysDistinct();
    var ks := KeysOf(Entries);
    forall k | k in Table
      ensures multiset(ks)[k] == 1
    {
      CountInDistinct(ks, k);
    }
  }

  /** In a sequence without repeats, each element occurs once. */
  lemma {:induction false} CountInDistinct(ks: seq<string>, k: string)
    requires forall i, j :: 0 <= i < j < |ks| ==> ks[i] != ks[j]
    requires k in ks
    ensures multiset(ks)[k] == 1
  {
    assert ks == [ks[0]] + ks[1..];
    assert multiset(ks) == multiset{ks[0]} + multiset(ks[1..]);
    if k == ks[0] {
      assert k !in ks[1..];
    } else {
      CountInDistinct(ks[1..], k);
    }
  }

  /** The fallback lists exactly the keys of the table. */
  lemma FallbackNamesAreKeys()
    ensures forall k :: k in FallbackNames() <==> k in Table
  {
    var ks := KeysOf(Entries);
    forall k
      ensures k in FallbackNames() <==> k in ks
    {
      assert k in FallbackNames() <==> k in multiset(FallbackNames());
      assert k in ks <==> k in multiset(ks);
    }
  }

  /** Every fallback name is itself an image name: a dot-free base followed by `.jpg`. */
  lemma FallbackNamesAreImages()
    ensures forall i :: 0 <= i < |FallbackNames()| ==> IsImageName(FallbackNames()[i])
  {
    var ks := KeysOf(Entries);
    forall i | 0 <= i < |ks|
      ensures IsImageName(ks[i])
    {
      var base := ks[i][..8];
      assert ks[i] == base + ".jpg";
      JpegName(base);
    }
    forall i | 0 <= i < |FallbackNames()|
      ensures IsImageName(FallbackNames()[i])
    {
      assert FallbackNames()[i] in multiset(ks);
    }
  }

  /** The keys are already written in ascending order, so the fallback is photo-01 to photo-09 in order. */
  lemma FallbackNamesValue()
    ensures FallbackNames() == ["photo-01.jpg", "photo-02.jpg", "photo-03.jpg", "photo-04.jpg",
                               "photo-05.jpg", "photo-06.jpg", "photo-07.jpg", "photo-08.jpg",
                               "photo-09.jpg"]
  {
    var ks := KeysOf(Entries);
    assert ks == ["photo-01.jpg", "photo-02.jpg", "photo-03.jpg", "photo-04.jpg",
                  "photo-05.jpg", "photo-06.jpg", "photo-07.jpg", "photo-08.jpg",
                  "photo-09.jpg"];
    forall i | 0 < i < |ks|
      ensures LessEq(ks[i - 1], ks[i])
    {
      assert ks[i - 1][..7] == ks[i][..7];
      PrefixThenLess(ks[i - 1], ks[i], 7);
    }
    AdjacentSorted(ks);
    SortOfSorted(ks);
  }
}
