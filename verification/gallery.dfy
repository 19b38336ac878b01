/**
  The non-DOM part of `renderGallery` (script.js:47-67): one tile per
  resolved name, in order, with the image URL under the tab's folder and
  the pixel size when `imageMetadata` knows the file.
 */
module Gallery {
  import opened Options
  import Metadata

  /** One gallery tile: the file name, the `src` URL and the known size, if any. */
  datatype Item = Item(filename: string, src: string, size: Option<Metadata.Dimensions>)

  /** The URL `./assets/images/<folder>/<filename>` of an image (script.js:56). */
  function ImagePath(folder: string, filename: string): (p: string)
    ensures |p| == |"./assets/images/"| + |folder| + 1 + |filename|
    ensures p[..|"./assets/images/"|] == "./assets/images/"
    ensures p[|"./assets/images/"|..|"./assets/images/"| + |folder|] == folder
    ensures p[|p| - |filename|..] == filename
    ensures p[|p| - |filename| - 1] == '/'
  {
    "./assets/images/" + folder + "/" + filename
  }

  /** The size `imageMetadata` records for a file, when it has an entry (script.js:60-63). */
  function SizeOf(filename: string): (d: Option<Metadata.Dimensions>)
    ensures d.Some? <==> filename in Metadata.Table
    ensures d.Some? ==> d.value == Metadata.Table[filename]
  {
    if filename in Metadata.Table then Some(Metadata.Table[filename]) else None
  }

  /** The tiles for `names` under `folder`, one per name and in the same order (script.js:51-67). */
  function Render(names: seq<string>, folder: string): (items: seq<Item>)
    ensures |items| == |names|
    ensures forall i :: 0 <= i < |names| ==> items[i].filename == names[i] && items[i].src == ImagePath(folder, names[i])
    ensures forall i :: 0 <= i < |names| ==> (items[i].size.Some? <==> names[i] in Metadata.Table)
    ensures forall i :: 0 <= i < |names| && names[i] in Metadata.Table ==> items[i].size == Some(Metadata.Table[names[i]])
  {
    seq(|names|, i requires 0 <= i < |names| => Item(names[i], ImagePath(folder, names[i]), SizeOf(names[i])))
  }

  /** The file names the tiles show, in tile order. */
  function Filenames(items: seq<Item>): (ns: seq<string>)
    ensures |ns| == |items|
    ensures forall i :: 0 <= i < |items| ==> ns[i] == items[i].filename
  {
    seq(|items|, i requires 0 <= i < |items| => items[i].filename)
  }

  /** Rendering neither drops, adds nor reorders names: the tiles read back as the input. */
  lemma RenderKeepsNames(names: seq<string>, folder: string)
    ensures Filenames(Render(names, folder)) == names
  {
  }

  /** Each tile depends on its own name only, so rendering a concatenation concatenates the tiles. */
  lemma RenderAppend(a: seq<string>, b: seq<string>, folder: string)
    ensures Render(a + b, folder) == Render(a, folder) + Render(b, folder)
  {
    var l, r := Render(a + b, folder), Render(a, folder) + Render(b, folder);
    forall i | 0 <= i < |l|
      ensures l[i] == r[i]
    {
      if i < |a| {
        assert (a + b)[i] == a[i];
      } else {
        assert (a + b)[i] == b[i - |a|];
      }
    }
  }

  /** Two tiles of the same folder have the same URL only for the same file. */
  lemma ImagePathInjective(folder: string, x: string, y: string)
    requires ImagePath(folder, x) == ImagePath(folder, y)
    ensures x == y
  {
    var p := ImagePath(folder, x);
    assert |x| == |y|;
    assert x == p[|p| - |x|..] == y;
  }

  /** Every tile of the fallback list is pre-sized: the fallback is exactly the table's keys. */
  lemma FallbackTilesAreSized(folder: string)
    ensures forall i :: 0 <= i < |Metadata.FallbackNames()| ==>
              Render(Metadata.FallbackNames(), folder)[i].size.Some?
  {
    Metadata.FallbackNamesAreKeys();
    forall i | 0 <= i < |Metadata.FallbackNames()|
      ensures Metadata.FallbackNames()[i] in Metadata.Table
    {
      assert Metadata.FallbackNames()[i] in Metadata.FallbackNames();
    }
  }
}
