/**
 * The image plugin's list logic in src/lib/editor/plugins/image.tsx: the
 * reducer over the images and upload results, file names, and the carousel
 * of the image dialog, whose current image can be moved or removed.
 */
module Image {
  import opened Wrappers

  datatype ImageData = ImageData(src: string, alt: Option<string>, href: Option<string>, file: Option<string>, key: Option<string>)

  /** The reducer's state: the images, and upload results whose image was not there yet. */
  datatype ImageState = ImageState(images: seq<ImageData>, uploadedMap: map<string, string>)

  datatype Action =
    | Add(images: seq<ImageData>)
    | Uploaded(key: string, url: string)
    | SetImages(images: seq<ImageData>)
    | Other(kind: string)

  // ---------------------------------------------------------------------
  // imageReducer (image.tsx:365-402)
  // ---------------------------------------------------------------------

  /** The first image whose key is `key`, or -1 (`items.find`). */
  function FirstWithKey(items: seq<ImageData>, key: string): (r: int)
    ensures -1 <= r < |items|
    ensures r >= 0 ==> items[r].key == Some(key)
    ensures forall j :: 0 <= j < (if r < 0 then |items| else r) ==> items[j].key != Some(key)
  {
    if |items| == 0 then -1
    else if items[0].key == Some(key) then 0
    else var r := FirstWithKey(items[1..], key); if r < 0 then -1 else r + 1
  }

  /** An image takes a recorded upload result when it has a key and the result is not empty. */
  function Synced(item: ImageData, uploaded: map<string, string>): ImageData
  {
    if item.key.Some? && item.key.value != "" && item.key.value in uploaded && uploaded[item.key.value] != ""
    then item.(src := uploaded[item.key.value])
    else item
  }

  function SyncAll(images: seq<ImageData>, uploaded: map<string, string>): (r: seq<ImageData>)
    ensures |r| == |images| && forall i :: 0 <= i < |images| ==> r[i] == Synced(images[i], uploaded)
  {
    seq(|images|, i requires 0 <= i < |images| => Synced(images[i], uploaded))
  }

  /** `imageReducer(state, action)`; `None` is the error an unknown action throws. */
  function Reduce(state: ImageState, action: Action): Option<ImageState>
  {
    match action
    case Add(images) => Some(ImageState(images, state.uploadedMap))
    case Uploaded(key, url) =>
      var i := FirstWithKey(state.images, key);
      if i >= 0 then Some(ImageState(state.images[i := state.images[i].(src := url)], state.uploadedMap))
      else Some(ImageState(state.images, state.uploadedMap[key := url]))
    case SetImages(images) => Some(ImageState(SyncAll(images, state.uploadedMap), state.uploadedMap))
    case Other(_) => None
  }

  /** Only the three known actions are accepted. */
  lemma UnknownActionThrows(state: ImageState, action: Action)
    ensures Reduce(state, action).None? <==> action.Other?
  {
  }

  /** `add` replaces the images and keeps the recorded uploads. */
  lemma AddReplacesImages(state: ImageState, images: seq<ImageData>)
    ensures Reduce(state, Add(images)) == Some(ImageState(images, state.uploadedMap))
  {
  }

  /**
   * `uploaded` sets the address of the first image with the key and nothing
   * else; when no image has the key it records the address instead.
   */
  lemma UploadedLandsOnce(state: ImageState, key: string, url: string)
    ensures var r := Reduce(state, Uploaded(key, url)).value;
            && |r.images| == |state.images|
            && ((exists i :: 0 <= i < |state.images| && state.images[i].key == Some(key)) ==>
                  r.uploadedMap == state.uploadedMap
                  && exists i :: (0 <= i < |state.images| && state.images[i].key == Some(key)
                                  && r.images[i].src == url && r.images[i] == state.images[i].(src := url)
                                  && (forall j :: 0 <= j < i ==> state.images[j].key != Some(key))
                                  && (forall j :: 0 <= j < |state.images| && j != i ==> r.images[j] == state.images[j])))
            && ((forall i :: 0 <= i < |state.images| ==> state.images[i].key != Some(key)) ==>
                  r.images == state.images && r.uploadedMap == state.uploadedMap[key := url])
  {
    var i := FirstWithKey(state.images, key);
    if i >= 0 {
      var r := Reduce(state, Uploaded(key, url)).value;
      assert r.images[i] == state.images[i].(src := url);
    }
  }

  /** `set` takes the new images, each with its recorded upload if there is one, fields otherwise unchanged. */
  lemma SetAppliesUploads(state: ImageState, images: seq<ImageData>)
    ensures var r := Reduce(state, SetImages(images)).value;
            && r.uploadedMap == state.uploadedMap
            && |r.images| == |images|
            && forall i :: 0 <= i < |images| ==>
                 r.images[i].(src := images[i].src) == images[i]
                 && (r.images[i].src != images[i].src ==>
                       images[i].key.Some? && images[i].key.value in state.uploadedMap
                       && r.images[i].src == state.uploadedMap[images[i].key.value])
                 && (images[i].key.Some? && images[i].key.value != "" && images[i].key.value in state.uploadedMap
                     && state.uploadedMap[images[i].key.value] != "" ==>
                       r.images[i].src == state.uploadedMap[images[i].key.value])
                 && (images[i].key.None? || images[i].key.value == "" || images[i].key.value !in state.uploadedMap
                     || state.uploadedMap[images[i].key.value] == "" ==>
                       r.images[i] == images[i])
  {
  }

  /**
   * An upload that finishes before its image is added is not lost: the image,
   * once set, takes the address.
   */
  lemma EarlyUploadApplied(state: ImageState, key: string, url: string, images: seq<ImageData>, i: nat)
    requires forall j :: 0 <= j < |state.images| ==> state.images[j].key != Some(key)
    requires key != "" && url != "" && i < |images| && images[i].key == Some(key)
    ensures var s1 := Reduce(state, Uploaded(key, url)).value;
            Reduce(s1, SetImages(images)).value.images[i].src == url
  {
    UploadedLandsOnce(state, key, url);
  }

  // ---------------------------------------------------------------------
  // getFileName (image.tsx:339-345)
  // ---------------------------------------------------------------------

  /** `s.lastIndexOf(c)`. */
  function LastIndexOf(s: string, c: char): (r: int)
    ensures -1 <= r < |s|
    ensures r >= 0 ==> s[r] == c
    ensures forall j :: r < j < |s| ==> s[j] != c
  {
    if |s| == 0 then -1
    else if s[|s| - 1] == c then |s| - 1
    else LastIndexOf(s[..|s| - 1], c)
  }

  /** A file name without its extension: everything before the last dot. */
  function GetFileName(file: string): (r: string)
    ensures |r| <= |file| && r == file[..|r|]
    ensures '.' !in file ==> r == file
    ensures '.' in file ==> |r| < |file| && file[|r|] == '.' && '.' !in file[|r| + 1..]
  {
    var i := LastIndexOf(file, '.');
    if i != -1 then file[..i] else file
  }

  // ---------------------------------------------------------------------
  // The carousel (image.tsx:200-234)
  // ---------------------------------------------------------------------

  /** The current image is one of the images, or there is none and the index is 0. */
  predicate Selected(items: seq<ImageData>, index: int)
  {
    0 <= index && (index < |items| || index == 0)
  }

  function Swap(s: seq<ImageData>, i: nat, j: nat): (r: seq<ImageData>)
    requires i < |s| && j < |s|
    ensures |r| == |s| && r[i] == s[j] && r[j] == s[i]
    ensures forall k :: 0 <= k < |s| && k != i && k != j ==> r[k] == s[k]
  {
    s[i := s[j]][j := s[i]]
  }

  /** `movePrev`: the current image changes places with the one before it, and stays current. */
  function MovePrevSpec(items: seq<ImageData>, index: int): (seq<ImageData>, int)
  {
    if 0 < index < |items| then (Swap(items, index, index - 1), index - 1) else (items, index)
  }

  /** `moveNext`: the current image changes places with the one after it, and stays current. */
  function MoveNextSpec(items: seq<ImageData>, index: int): (seq<ImageData>, int)
  {
    if 0 <= index < |items| - 1 then (Swap(items, index, index + 1), index + 1) else (items, index)
  }

  /** `items.splice(start, 1)`: a negative start counts from the end, one past the end removes nothing. */
  function Splice1(items: seq<ImageData>, start: int): (r: seq<ImageData>)
    ensures var at := if start < 0 then (if |items| + start < 0 then 0 else |items| + start) else start;
            if at < |items| then r == items[..at] + items[at + 1..] else r == items
  {
    var at := if start < 0 then (if |items| + start < 0 then 0 else |items| + start) else start;
    if at < |items| then items[..at] + items[at + 1..] else items
  }

  /** `removeImage` as written: refused only when there is no image at all. */
  function RemoveImageAsWritten(items: seq<ImageData>, index: int): Option<(seq<ImageData>, int)>
  {
    if |items| <= 0 then None
    else
      var images := Splice1(items, index);
      Some((images, if index >= |images| then index - 1 else index))
  }

  /** Removing the only image as written leaves an empty carousel whose current index is -1. */
  lemma RemoveLastImageLeavesNoSelection(x: ImageData)
    ensures Selected([x], 0)
    ensures RemoveImageAsWritten([x], 0) == Some(([], -1))
    ensures !Selected([], -1)
  {
    assert [x][..0] + [x][1..] == [];
  }

  /** At index -1 the removal as written drops the last image, and the index stays -1. */
  lemma RemoveAtMinusOneDropsLast(items: seq<ImageData>)
    requires |items| > 0
    ensures RemoveImageAsWritten(items, -1) == Some((items[..|items| - 1], -1))
  {
    assert items[..|items| - 1] + items[|items|..] == items[..|items| - 1];
  }

  // The array of the dialog as JavaScript sees it: a slot holds an image or
  // is `undefined` (a hole).  An assignment at a negative index sets a
  // property that is not an element; one past the end extends the array.

  function Slots(items: seq<ImageData>): (r: seq<Option<ImageData>>)
    ensures |r| == |items| && forall i :: 0 <= i < |items| ==> r[i] == Some(items[i])
  {
    seq(|items|, i requires 0 <= i < |items| => Some(items[i]))
  }

  /** `a[i]`. */
  function GetAt(a: seq<Option<ImageData>>, i: int): Option<ImageData>
  {
    if 0 <= i < |a| then a[i] else None
  }

  /** `a[i] = v`. */
  function SetAt(a: seq<Option<ImageData>>, i: int, v: Option<ImageData>): (r: seq<Option<ImageData>>)
    ensures i < 0 ==> r == a
    ensures 0 <= i ==> |r| == (if i < |a| then |a| else i + 1) && r[i] == v
    ensures 0 <= i ==> forall j :: 0 <= j < |r| && j != i ==> r[j] == GetAt(a, j)
  {
    if i < 0 then a
    else if i < |a| then a[i := v]
    else a + seq(i - |a|, _ => None) + [v]
  }

  /** `movePrev` as written, on the slots it leaves. */
  function MovePrevAsWritten(items: seq<ImageData>, index: int): (seq<Option<ImageData>>, int)
  {
    var a := Slots(items);
    if index > 0 then
      var temp := GetAt(a, index);
      (SetAt(SetAt(a, index, GetAt(a, index - 1)), index - 1, temp), index - 1)
    else (a, index)
  }

  /** `moveNext` as written, on the slots it leaves. */
  function MoveNextAsWritten(items: seq<ImageData>, index: int): (seq<Option<ImageData>>, int)
  {
    var a := Slots(items);
    if index < |items| - 1 then
      var temp := GetAt(a, index);
      (SetAt(SetAt(a, index, GetAt(a, index + 1)), index + 1, temp), index + 1)
    else (a, index)
  }

  /** On a carousel with a current image, or an empty one at 0, the moves as written are the specified ones. */
  lemma MovesAsWrittenAgree(items: seq<ImageData>, index: int)
    requires Selected(items, index)
    ensures var (s, i) := MovePrevSpec(items, index); MovePrevAsWritten(items, index) == (Slots(s), i)
    ensures var (s, i) := MoveNextSpec(items, index); MoveNextAsWritten(items, index) == (Slots(s), i)
  {
    if 0 < index < |items| {
      var (s, i) := MovePrevSpec(items, index);
      assert MovePrevAsWritten(items, index).0 == Slots(s);
    }
    if 0 <= index < |items| - 1 {
      var (s, i) := MoveNextSpec(items, index);
      assert MoveNextAsWritten(items, index).0 == Slots(s);
    }
  }

  /**
   * `onDrop`: each dropped file becomes an image named after the file without
   * its extension, with its preview address or an empty one, and a fresh key
   * (`Math.random()` in the source, a parameter here).
   */
  function Dropped(name: string, pic: Option<string>, key: string): (r: ImageData)
    ensures r.file == Some(name) && r.key == Some(key) && r.href.None?
    ensures r.alt == Some(GetFileName(name)) && r.src == (if pic.Some? then pic.value else "")
  {
    ImageData(if pic.Some? then pic.value else "", Some(GetFileName(name)), None, Some(name), Some(key))
  }

  /** `onDrop` appends the dropped images and keeps the current index. */
  function DropSpec(items: seq<ImageData>, index: int, data: seq<ImageData>): (seq<ImageData>, int)
  {
    (items + data, index)
  }

  /** Dropping keeps every image where it was and keeps a current image. */
  lemma DropKeepsSelection(items: seq<ImageData>, index: int, data: seq<ImageData>)
    requires Selected(items, index)
    ensures var (items', index') := DropSpec(items, index, data);
            && items'[..|items|] == items && items'[|items|..] == data
            && Selected(items', index') && (index < |items| ==> items'[index'] == items[index])
  {
  }

  /**
   * Removing the only image as written, dropping one and moving forward puts
   * a hole at the current position: the dropped image is no longer in the
   * carousel, and rendering the current slot reads a field of `undefined`.
   */
  lemma RemoveDropMoveLosesImage(x: ImageData, y: ImageData)
    ensures RemoveImageAsWritten([x], 0) == Some(([], -1))
    ensures DropSpec([], -1, [y]) == ([y], -1)
    ensures MoveNextAsWritten([y], -1) == ([None], 0)
  {
    RemoveLastImageLeavesNoSelection(x);
    assert DropSpec([], -1, [y]).0 == [y];
    var a := Slots([y]);
    assert GetAt(a, -1) == None;
    assert SetAt(a, -1, GetAt(a, 0)) == a;
    assert SetAt(a, 0, None) == [None];
  }

  /** `removeImage` as the message it shows intends: the last image cannot be removed. */
  function RemoveImageSpec(items: seq<ImageData>, index: int): Option<(seq<ImageData>, int)>
  {
    if |items| <= 1 then None
    else RemoveImageAsWritten(items, index)
  }

  /**
   * Removing drops exactly the current image and keeps a current image: the
   * one after it, or the new last one.
   */
  lemma RemoveKeepsSelection(items: seq<ImageData>, index: int)
    requires Selected(items, index)
    ensures RemoveImageSpec(items, index).None? <==> |items| <= 1
    ensures RemoveImageSpec(items, index).Some? ==>
              var (items', index') := RemoveImageSpec(items, index).value;
              && items' == items[..index] + items[index + 1..]
              && Selected(items', index') && |items'| > 0
              && index' == (if index == |items| - 1 then index - 1 else index)
  {
  }

  /** Moving keeps the images as a multiset, keeps a current image, and moves it with the index. */
  lemma MovePrevKeepsImages(items: seq<ImageData>, index: int)
    requires Selected(items, index)
    ensures var (items', index') := MovePrevSpec(items, index);
            && multiset(items') == multiset(items) && Selected(items', index')
            && (|items| > 0 ==> items'[index'] == items[index])
            && (index' != index <==> index > 0)
  {
    if 0 < index < |items| {
      SwapPermutes(items, index, index - 1);
    }
  }

  lemma MoveNextKeepsImages(items: seq<ImageData>, index: int)
    requires Selected(items, index)
    ensures var (items', index') := MoveNextSpec(items, index);
            && multiset(items') == multiset(items) && Selected(items', index')
            && (|items| > 0 ==> items'[index'] == items[index])
            && (index' != index <==> index < |items| - 1)
  {
    if 0 <= index < |items| - 1 {
      SwapPermutes(items, index, index + 1);
    }
  }

  lemma SwapPermutes(s: seq<ImageData>, i: nat, j: nat)
    requires i < |s| && j < |s| && i != j
    ensures multiset(Swap(s, i, j)) == multiset(s)
  {
    var t := s[i := s[j]];
    assert multiset(t) == multiset(s) - multiset{s[i]} + multiset{s[j]};
    assert t[j] == s[j];
    assert multiset(t[j := s[i]]) == multiset(t) - multiset{s[j]} + multiset{s[i]};
  }

  /** Moving forward and then back restores the carousel. */
  lemma MoveNextThenPrev(items: seq<ImageData>, index: int)
    requires 0 <= index < |items| - 1
    ensures var (items', index') := MoveNextSpec(items, index);
            MovePrevSpec(items', index') == (items, index)
  {
    var (items', index') := MoveNextSpec(items, index);
    assert Swap(items', index', index' - 1) == items;
  }

  /**
   * The dialog's carousel state.  Its removal is the corrected one, with
   * which the current index always names an image or, with no image, is 0.
   */
  class Carousel {
    var items: seq<ImageData>
    var currentIndex: int

    predicate Valid()
      reads this
    {
      Selected(items, currentIndex)
    }

    constructor (items: seq<ImageData>)
      ensures this.items == items && currentIndex == 0
      ensures Valid()
    {
      this.items := items;
      currentIndex := 0;
    }

    method MovePrev()
      modifies this
      ensures (items, currentIndex) == MovePrevSpec(old(items), old(currentIndex))
      ensures old(Valid()) ==> Valid()
    {
      if currentIndex > 0 && currentIndex < |items| {
        var images := items;
        var temp := images[currentIndex];
        images := images[currentIndex := images[currentIndex - 1]];
        images := images[currentIndex - 1 := temp];
        items := images;
        currentIndex := currentIndex - 1;
      }
      if old(Valid()) {
        MovePrevKeepsImages(old(items), old(currentIndex));
      }
    }

    method MoveNext()
      modifies this
      ensures (items, currentIndex) == MoveNextSpec(old(items), old(currentIndex))
      ensures old(Valid()) ==> Valid()
    {
      if 0 <= currentIndex && currentIndex < |items| - 1 {
        var images := items;
        var temp := images[currentIndex];
        images := images[currentIndex := images[currentIndex + 1]];
        images := images[currentIndex + 1 := temp];
        items := images;
        currentIndex := currentIndex + 1;
      }
      if old(Valid()) {
        MoveNextKeepsImages(old(items), old(currentIndex));
      }
    }

    /** Returns false, changing nothing, when the removal is refused. */
    method RemoveImage() returns (removed: bool)
      modifies this
      ensures removed <==> RemoveImageSpec(old(items), old(currentIndex)).Some?
      ensures removed ==> (items, currentIndex) == RemoveImageSpec(old(items), old(currentIndex)).value
      ensures !removed ==> items == old(items) && currentIndex == old(currentIndex)
      ensures old(Valid()) ==> Valid()
    {
      if |items| <= 1 {
        return false;
      }
      var images := items;
      var at := if currentIndex < 0 then (if |images| + currentIndex < 0 then 0 else |images| + currentIndex) else currentIndex;
      if at < |images| {
        images := images[..at] + images[at + 1..];
      }
      items := images;
      if currentIndex >= |images| {
        currentIndex := currentIndex - 1;
      }
      if old(Valid()) {
        RemoveKeepsSelection(old(items), old(currentIndex));
      }
      return true;
    }

    /** `onDrop`, with the images already built from the files. */
    method Drop(data: seq<ImageData>)
      modifies this
      ensures (items, currentIndex) == DropSpec(old(items), old(currentIndex), data)
      ensures old(Valid()) ==> Valid()
    {
      items := items + data;
    }
  }
}
