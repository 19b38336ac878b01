/**
  Listing resolution, the body of `fetchImages` (script.js:17-44) once the
  network call has produced its outcome: keep the image files of a
  directory listing, by their original names, sorted; on any failure fall
  back to the sorted keys of `imageMetadata`.
 */
module Resolver {
  import opened Strings
  import opened Extensions
  import Metadata

  /**
    One element of the listing payload. `File` carries a string `name`;
    `Malformed` is an element on which `file.name.toLowerCase()` throws
    (`null`, or no string `name`).
   */
  datatype Entry = File(name: string) | Malformed

  /**
    Why no usable payload arrived: `fetch` rejects, the status is not ok,
    the body is not JSON so `response.json()` rejects, or the JSON is not an
    array so `files.filter` throws. The script treats all four alike
    (script.js:21-26, 30, 39-42).
   */
  datatype FailureKind = NetworkError | StatusNotOk | BodyNotJson | NotAnArray

  /** What the directory listing call produced. */
  datatype Listing = Listed(entries: seq<Entry>) | Failed(kind: FailureKind)

  /** Every element of the payload has a string name, so the filter runs to completion. */
  predicate AllNamed(entries: seq<Entry>)
  {
    forall i :: 0 <= i < |entries| ==> entries[i].File?
  }

  /** The names of a payload whose elements are all named, in listing order (script.js:35). */
  function Names(entries: seq<Entry>): (ns: seq<string>)
    requires AllNamed(entries)
    ensures |ns| == |entries|
    ensures forall i :: 0 <= i < |entries| ==> ns[i] == entries[i].name
  {
    seq(|entries|, i requires 0 <= i < |entries| => entries[i].name)
  }

  /**
    The image names among `names`, in their original spelling
    (script.js:30-34): each accepted name keeps its multiplicity, every
    other name is gone.
   */
  function ImageNames(names: seq<string>): (r: seq<string>)
    ensures forall i :: 0 <= i < |r| ==> IsImageName(r[i])
    ensures forall x :: multiset(r)[x] == if IsImageName(x) then multiset(names)[x] else 0
  {
    if |names| == 0 then []
    else
      assert names == [names[0]] + names[1..];
      var rest := ImageNames(names[1..]);
      if IsImageName(names[0]) then [names[0]] + rest else rest
  }

  /** A listing made only of image names passes the filter unchanged. */
  lemma {:induction false} ImageNamesKeepsImages(names: seq<string>)
    requires forall i :: 0 <= i < |names| ==> IsImageName(names[i])
    ensures ImageNames(names) == names
  {
    if |names| > 0 {
      ImageNamesKeepsImages(names[1..]);
      assert names == [names[0]] + names[1..];
    }
  }

  /**
    The list `fetchImages` returns. A listing that failed, or one with an
    element the filter throws on, yields the sorted metadata keys
    (script.js:39-42); otherwise the sorted image names (script.js:30-38).
   */
  function Resolve(listing: Listing): (r: seq<string>)
    ensures Sorted(r)
    ensures listing.Listed? && AllNamed(listing.entries) ==>
              forall x :: multiset(r)[x] == if IsImageName(x) then multiset(Names(listing.entries))[x] else 0
    ensures !(listing.Listed? && AllNamed(listing.entries)) ==> r == Metadata.FallbackNames()
  {
    match listing
    case Failed(_) => Metadata.FallbackNames()
    case Listed(entries) =>
      if AllNamed(entries) then Sort(ImageNames(Names(entries)))
      else Metadata.FallbackNames()
  }

  /** The names resolved from a usable listing. */
  function Accepted(listing: Listing): (ns: seq<string>)
    requires listing.Listed? && AllNamed(listing.entries)
    ensures forall i :: 0 <= i < |ns| ==> IsImageName(ns[i])
  {
    ImageNames(Names(listing.entries))
  }

  /**
    On success the result is the one sorted arrangement of exactly the
    accepted names: any sorted sequence holding each accepted name as
    often as the listing does is the result.
   */
  lemma ResolveIsSortedPermutation(listing: Listing, r: seq<string>)
    requires listing.Listed? && AllNamed(listing.entries)
    requires Sorted(r) && multiset(r) == multiset(Accepted(listing))
    ensures Resolve(listing) == r
  {
    SortedUnique(Resolve(listing), r);
  }

  /** On success every returned name is an image name (script.js:29-34). */
  lemma ResolvedAreImages(listing: Listing)
    requires listing.Listed? && AllNamed(listing.entries)
    ensures forall i :: 0 <= i < |Resolve(listing)| ==> IsImageName(Resolve(listing)[i])
  {
    var r := Resolve(listing);
    forall i | 0 <= i < |r|
      ensures IsImageName(r[i])
    {
      assert r[i] in multiset(r);
    }
  }

  /** A listed name that is an image is returned with its original spelling. */
  lemma ImageNameKept(listing: Listing, i: int)
    requires listing.Listed? && AllNamed(listing.entries)
    requires 0 <= i < |listing.entries| && IsImageName(listing.entries[i].name)
    ensures listing.entries[i].name in Resolve(listing)
  {
    var x := listing.entries[i].name;
    assert x in multiset(Names(listing.entries));
    assert x in multiset(Resolve(listing));
  }

  /** The order of the listing does not matter, only which names it holds how often. */
  lemma ResolveIgnoresListingOrder(a: seq<Entry>, b: seq<Entry>)
    requires AllNamed(a) && AllNamed(b) && multiset(Names(a)) == multiset(Names(b))
    ensures Resolve(Listed(a)) == Resolve(Listed(b))
  {
    var ra, rb := Resolve(Listed(a)), Resolve(Listed(b));
    assert forall x :: multiset(ra)[x] == multiset(rb)[x];
    assert multiset(ra) == multiset(rb);
    SortedUnique(ra, rb);
  }

  /** A single element without a string name sends the whole listing to the fallback. */
  lemma MalformedEntryFallsBack(entries: seq<Entry>, i: int)
    requires 0 <= i < |entries| && entries[i].Malformed?
    ensures Resolve(Listed(entries)) == Metadata.FallbackNames()
  {
  }

  /**
    Every resolved name contains a dot, on both paths. So none of them is
    a property inherited by `imageMetadata` from `Object.prototype`
    (`constructor`, `toString`, ...), and the lookup in `renderGallery`
    sees only the table's own keys.
   */
  lemma ResolvedNamesHaveDot(listing: Listing)
    ensures forall i :: 0 <= i < |Resolve(listing)| ==> '.' in Resolve(listing)[i]
  {
    var r := Resolve(listing);
    if listing.Listed? && AllNamed(listing.entries) {
      ResolvedAreImages(listing);
      forall i | 0 <= i < |r|
        ensures '.' in r[i]
      {
        ImageNameHasDot(r[i]);
      }
    } else {
      Metadata.FallbackNamesAreImages();
      forall i | 0 <= i < |r|
        ensures '.' in r[i]
      {
        ImageNameHasDot(r[i]);
      }
    }
  }

  /** A listing of image names only resolves to its sorted arrangement. */
  lemma ResolveOfImages(entries: seq<Entry>, sorted: seq<string>)
    requires AllNamed(entries)
    requires Sorted(sorted) && multiset(sorted) == multiset(Names(entries))
    requires forall i :: 0 <= i < |sorted| ==> IsImageName(sorted[i])
    ensures Resolve(Listed(entries)) == sorted
  {
    var names := Names(entries);
    forall i | 0 <= i < |names|
      ensures IsImageName(names[i])
    {
      assert names[i] in multiset(sorted);
    }
    ImageNamesKeepsImages(names);
    ResolveIsSortedPermutation(Listed(entries), sorted);
  }
}
