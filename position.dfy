/**
 * Anchored positioning of a drop element: the named positions, how a
 * name is decoded into an element keyword and a target keyword
 * (`getCords`, `flipPosition`), the `{top, left}` computation
 * (`positions$1`), and what `positionEl` does to the element (justify
 * sizing, inline coordinates, the `uk-drop-<name>` class).
 *
 * DOM measurements are inputs: the sizes, the target's document offset,
 * and which offset parent the element has together with that parent's
 * offset and scroll, or the page scroll.
 */
module Position {
  import opened Strings
  import opened Wrappers

  /** A document or parent-relative position. */
  datatype Point = Point(top: real, left: real)

  /** What `size(el)` measures. */
  datatype Size = Size(width: real, height: real)

  /** The element's `offsetParent` as `positions$1` tells the cases apart:
      none (coordinates are taken relative to the viewport, so the page
      scroll is subtracted), `document.body` (which needs a correction only
      when its computed position is not `static`), or another element (whose
      offset is subtracted and whose scroll is added back). */
  datatype OffsetParent =
    | NoParent(pageScroll: Point)
    | Body(positioned: bool, bodyOffset: Point)
    | Element(parentOffset: Point, parentScroll: Point)

  /** The fourteen position names the drop accepts. */
  const PositionNames: seq<string> := [
    "bottom-left", "bottom-center", "bottom-right", "bottom-justify",
    "top-left", "top-center", "top-right", "top-justify",
    "left-top", "left-center", "left-bottom",
    "right-top", "right-center", "right-bottom"]

  /** `flipPosition`: the opposite side, for the four side names. */
  function Flip(pos: string): string
  {
    match pos
    case "left" => "right"
    case "right" => "left"
    case "top" => "bottom"
    case "bottom" => "top"
    case _ => pos
  }

  /** Flipping swaps the two sides of each axis, leaves every other word
      alone, and flipping twice gives the word back. */
  lemma FlipInvolution(pos: string)
    ensures Flip(Flip(pos)) == pos
    ensures Flip(pos) != pos <==> IsSide(pos)
  {
  }

  /** The part of a position name before the first `-` (`split('-')[0]`). */
  function Primary(position: string): string
  {
    Split(position, '-')[0]
  }

  /** The part after it (`split('-')[1]`), "undefined" when there is none. */
  function Secondary(position: string): string
  {
    PartOrUndefined(Split(position, '-'), 1)
  }

  /** The keyword string `getCords` passes for the element: the primary
      side flipped, then the secondary word. */
  function ElementKeyword(position: string): string
  {
    Flip(Primary(position)) + " " + Secondary(position)
  }

  /** The keyword string `getCords` passes for the target. */
  function TargetKeyword(position: string): string
  {
    Primary(position) + " " + Secondary(position)
  }

  /** `getAxis`: `'y'` when `/(top|bottom)/` matches the primary part. */
  function GetAxis(position: string): (axis: string)
    ensures axis == "x" || axis == "y"
  {
    var pos := Primary(position);
    if Contains(pos, "top") || Contains(pos, "bottom") then "y" else "x"
  }

  /** The horizontal offset, inside a box of width `w`, of the point a
      keyword string names: the right edge if it mentions `right`, else the
      left edge if it mentions `left`, else the centre. */
  function AnchorX(keywords: string, w: real): real
  {
    if Contains(keywords, "right") then w
    else if Contains(keywords, "left") then 0.0
    else w / 2.0
  }

  /** The vertical counterpart of `AnchorX`, with `bottom` and `top`. */
  function AnchorY(keywords: string, h: real): real
  {
    if Contains(keywords, "bottom") then h
    else if Contains(keywords, "top") then 0.0
    else h / 2.0
  }

  /** The target's offset moved into the coordinates the element is
      positioned in. */
  function Base(targetOffset: Point, parent: OffsetParent): Point
  {
    match parent
    case NoParent(scroll) =>
      Point(targetOffset.top - scroll.top, targetOffset.left - scroll.left)
    case Body(positioned, bodyOffset) =>
      if positioned then
        Point(targetOffset.top - bodyOffset.top, targetOffset.left - bodyOffset.left)
      else targetOffset
    case Element(parentOffset, parentScroll) =>
      Point(targetOffset.top - parentOffset.top + parentScroll.top,
            targetOffset.left - parentOffset.left + parentScroll.left)
  }

  /** `positions$1(el, my, target, their)`: start from the target's offset,
      correct it for the offset parent or the page scroll, then move by the
      target's anchor and back by the element's. The result puts the point
      `my` names on the element exactly onto the point `their` names on
      the target. */
  method Positions(my: string, their: string, mySize: Size, theirSize: Size,
                   theirOffset: Point, parent: OffsetParent)
    returns (p: Point)
    ensures p.left + AnchorX(my, mySize.width)
         == Base(theirOffset, parent).left + AnchorX(their, theirSize.width)
    ensures p.top + AnchorY(my, mySize.height)
         == Base(theirOffset, parent).top + AnchorY(their, theirSize.height)
  {
    var left := theirOffset.left;
    var top := theirOffset.top;

    match parent {
      case Body(positioned, bodyOffset) =>
        if positioned {
          top := top - bodyOffset.top;
          left := left - bodyOffset.left;
        }
      case Element(parentOffset, parentScroll) =>
        top := top - parentOffset.top;
        left := left - parentOffset.left;
        top := top + parentScroll.top;
        left := left + parentScroll.left;
      case NoParent(scroll) =>
        top := top - scroll.top;
        left := left - scroll.left;
    }

    if Contains(their, "right") {
      left := left + theirSize.width;
    } else if !Contains(their, "left") {
      left := left + theirSize.width / 2.0;
    }

    if Contains(their, "bottom") {
      top := top + theirSize.height;
    } else if !Contains(their, "top") {
      top := top + theirSize.height / 2.0;
    }

    if Contains(my, "right") {
      left := left - mySize.width;
    } else if !Contains(my, "left") {
      left := left - mySize.width / 2.0;
    }

    if Contains(my, "bottom") {
      top := top - mySize.height;
    } else if !Contains(my, "top") {
      top := top - mySize.height / 2.0;
    }

    p := Point(top, left);
  }

  /** Where a placement named `position` puts an element of size `mySize`
      at `p` next to a target of size `theirSize` whose corrected offset is
      `b`: against the primary side of the target, touching it, and aligned
      along the other axis as the secondary word says (`center`, and also
      `justify`, align the centres). */
  ghost predicate Placed(position: string, p: Point, mySize: Size, b: Point, theirSize: Size)
  {
    PlacedTop(position, p, mySize, b, theirSize) && PlacedLeft(position, p, mySize, b, theirSize)
  }

  /** The vertical half of `Placed`. */
  ghost predicate PlacedTop(position: string, p: Point, mySize: Size, b: Point, theirSize: Size)
  {
    var primary, secondary := Primary(position), Secondary(position);
    && (primary == "bottom" ==> p.top == b.top + theirSize.height)
    && (primary == "top" ==> p.top + mySize.height == b.top)
    && (Horizontal(primary) ==>
          (secondary == "top" ==> p.top == b.top)
          && (secondary == "bottom" ==> p.top + mySize.height == b.top + theirSize.height)
          && (secondary == "center" ==>
                p.top + mySize.height / 2.0 == b.top + theirSize.height / 2.0))
  }

  /** The horizontal half of `Placed`. */
  ghost predicate PlacedLeft(position: string, p: Point, mySize: Size, b: Point, theirSize: Size)
  {
    var primary, secondary := Primary(position), Secondary(position);
    && (primary == "left" ==> p.left + mySize.width == b.left)
    && (primary == "right" ==> p.left == b.left + theirSize.width)
    && (Vertical(primary) ==>
          (secondary == "left" ==> p.left == b.left)
          && (secondary == "right" ==> p.left + mySize.width == b.left + theirSize.width)
          && ((secondary == "center" || secondary == "justify") ==>
                p.left + mySize.width / 2.0 == b.left + theirSize.width / 2.0))
  }

  /** `getCords(position, el, target)`: decode the name and call
      `positions$1`. For each of the fourteen names the element ends up
      where the name says. */
  method GetCords(position: string, mySize: Size, theirSize: Size,
                  theirOffset: Point, parent: OffsetParent)
    returns (p: Point)
    ensures p.left + AnchorX(ElementKeyword(position), mySize.width)
         == Base(theirOffset, parent).left + AnchorX(TargetKeyword(position), theirSize.width)
    ensures p.top + AnchorY(ElementKeyword(position), mySize.height)
         == Base(theirOffset, parent).top + AnchorY(TargetKeyword(position), theirSize.height)
    ensures position in PositionNames ==>
      Placed(position, p, mySize, Base(theirOffset, parent), theirSize)
  {
    var parts := Split(position, '-');
    var pos := parts[0];
    var dir := PartOrUndefined(parts, 1);
    var elPos := Flip(pos) + " " + dir;
    var targetPos := pos + " " + dir;
    p := Positions(elPos, targetPos, mySize, theirSize, theirOffset, parent);
    if position in PositionNames {
      NameParts(position);
      PlacedByAnchors(position, p, mySize, Base(theirOffset, parent), theirSize);
    }
  }

  /** The four side words. */
  predicate IsSide(w: string)
  {
    Vertical(w) || Horizontal(w)
  }

  /** The side words of the vertical axis. */
  predicate Vertical(w: string)
  {
    w == "top" || w == "bottom"
  }

  /** The side words of the horizontal axis. */
  predicate Horizontal(w: string)
  {
    w == "left" || w == "right"
  }

  /** The words that appear in the keyword strings of the fourteen names. */
  predicate IsWord(w: string)
  {
    IsSide(w) || w == "center" || w == "justify"
  }

  /** A letter of each side word that no other `IsWord` word has. */
  function KeyChar(w: string): (c: char)
    requires IsSide(w)
    ensures c in w
    ensures forall v :: IsWord(v) && v != w ==> c !in v
  {
    if w == "right" then 'g'
    else if w == "left" then 'l'
    else if w == "bottom" then 'b'
    else 'p'
  }

  /** A needle with a letter the haystack lacks does not occur in it. */
  lemma MissingChar(hay: string, needle: string, c: char)
    requires c in needle && c !in hay
    ensures !Contains(hay, needle)
  {
    var j :| 0 <= j < |needle| && needle[j] == c;
    forall i ensures !OccursAt(hay, needle, i) {
      if 0 <= i && i + |needle| <= |hay| {
        assert hay[i..i + |needle|][j] == hay[i + j];
        assert hay[i + j] in hay;
      }
    }
    ContainsAt(hay, needle);
  }

  /** A string occurs in any string it ends. */
  lemma ContainsSuffix(a: string, w: string)
    ensures Contains(a + w, w)
  {
    ContainsAt(a + w, w);
    assert (a + w)[|a|..|a| + |w|] == w;
    assert OccursAt(a + w, w, |a|);
  }

  /** Which side words a two-word keyword string mentions: exactly its
      own words. */
  lemma WordsContain(a: string, b: string, w: string)
    requires IsWord(a) && IsWord(b) && IsSide(w)
    ensures Contains(a + " " + b, w) <==> a == w || b == w
  {
    var hay := a + " " + b;
    if a == w {
      assert hay[..|w|] == w;
    } else if b == w {
      ContainsSuffix(a + " ", w);
    } else {
      var c := KeyChar(w);
      assert c !in " ";
      MissingChar(hay, w, c);
    }
  }

  /** `a + "-" + b` splits into `a` and `b` when neither has a dash. */
  lemma SplitName(a: string, b: string)
    requires '-' !in a && '-' !in b
    ensures Split(a + "-" + b, '-') == [a, b]
  {
    SplitWithout(a, '-');
    SplitWithout(b, '-');
    SplitAround(a, b, '-');
  }

  /** A side word, a dash, and a word for the other axis (`justify` only
      after a vertical side). */
  ghost predicate NameShape(position: string)
  {
    var a, b := Primary(position), Secondary(position);
    && IsSide(a) && IsWord(b)
    && (Vertical(a) ==> Horizontal(b) || b == "center" || b == "justify")
    && (Horizontal(a) ==> Vertical(b) || b == "center")
  }

  lemma NamePart(a: string, b: string)
    requires IsSide(a) && IsWord(b)
    requires Vertical(a) ==> Horizontal(b) || b == "center" || b == "justify"
    requires Horizontal(a) ==> Vertical(b) || b == "center"
    ensures NameShape(a + "-" + b)
    ensures ' ' !in a + "-" + b
  {
    SplitName(a, b);
    SpaceFree(a);
    SpaceFree(b);
    SpaceFreeConcat(a, "-");
    SpaceFreeConcat(a + "-", b);
  }

  /** Each of the fourteen names has that shape. */
  lemma NameParts(position: string)
    requires position in PositionNames
    ensures NameShape(position)
    ensures ' ' !in position
  {
    var i :| 0 <= i < |PositionNames| && PositionNames[i] == position;
    if i < 4 {
      NamesBottom(i);
    } else if i < 8 {
      NamesTop(i);
    } else if i < 11 {
      NamesLeft(i);
    } else {
      NamesRight(i);
    }
  }

  lemma NamesBottom(i: int)
    requires 0 <= i < 4
    ensures NameShape(PositionNames[i])
    ensures ' ' !in PositionNames[i]
  {
    if i == 0 {
      assert PositionNames[i] == "bottom" + "-" + "left";
      NamePart("bottom", "left");
    } else if i == 1 {
      assert PositionNames[i] == "bottom" + "-" + "center";
      NamePart("bottom", "center");
    } else if i == 2 {
      assert PositionNames[i] == "bottom" + "-" + "right";
      NamePart("bottom", "right");
    } else {
      assert PositionNames[i] == "bottom" + "-" + "justify";
      NamePart("bottom", "justify");
    }
  }

  lemma NamesTop(i: int)
    requires 4 <= i < 8
    ensures NameShape(PositionNames[i])
    ensures ' ' !in PositionNames[i]
  {
    if i == 4 {
      assert PositionNames[i] == "top" + "-" + "left";
      NamePart("top", "left");
    } else if i == 5 {
      assert PositionNames[i] == "top" + "-" + "center";
      NamePart("top", "center");
    } else if i == 6 {
      assert PositionNames[i] == "top" + "-" + "right";
      NamePart("top", "right");
    } else {
      assert PositionNames[i] == "top" + "-" + "justify";
      NamePart("top", "justify");
    }
  }

  lemma NamesLeft(i: int)
    requires 8 <= i < 11
    ensures NameShape(PositionNames[i])
    ensures ' ' !in PositionNames[i]
  {
    if i == 8 {
      assert PositionNames[i] == "left" + "-" + "top";
      NamePart("left", "top");
    } else if i == 9 {
      assert PositionNames[i] == "left" + "-" + "center";
      NamePart("left", "center");
    } else {
      assert PositionNames[i] == "left" + "-" + "bottom";
      NamePart("left", "bottom");
    }
  }

  lemma NamesRight(i: int)
    requires 11 <= i < 14
    ensures NameShape(PositionNames[i])
    ensures ' ' !in PositionNames[i]
  {
    if i == 11 {
      assert PositionNames[i] == "right" + "-" + "top";
      NamePart("right", "top");
    } else if i == 12 {
      assert PositionNames[i] == "right" + "-" + "center";
      NamePart("right", "center");
    } else {
      assert PositionNames[i] == "right" + "-" + "bottom";
      NamePart("right", "bottom");
    }
  }

  /** The two anchor equations `positions$1` establishes put an element
      where its name says, for every name of that shape, so for each of
      the fourteen. */
  lemma PlacedByAnchors(position: string, p: Point, mySize: Size, b: Point, theirSize: Size)
    requires NameShape(position)
    requires p.left + AnchorX(ElementKeyword(position), mySize.width)
          == b.left + AnchorX(TargetKeyword(position), theirSize.width)
    requires p.top + AnchorY(ElementKeyword(position), mySize.height)
          == b.top + AnchorY(TargetKeyword(position), theirSize.height)
    ensures Placed(position, p, mySize, b, theirSize)
  {
    KeywordsContain(position);
    PlacedLeftByAnchor(position, p, mySize, b, theirSize);
    PlacedTopByAnchor(position, p, mySize, b, theirSize);
  }

  /** The side words in the two keyword strings of a name of that shape. */
  lemma KeywordsContain(position: string)
    requires NameShape(position)
    ensures forall w | IsSide(w) :: Contains(ElementKeyword(position), w) <==> Flip(Primary(position)) == w || Secondary(position) == w
    ensures forall w | IsSide(w) :: Contains(TargetKeyword(position), w) <==> Primary(position) == w || Secondary(position) == w
  {
    var a, s := Primary(position), Secondary(position);
    assert IsSide(Flip(a));
    forall w | IsSide(w)
      ensures Contains(ElementKeyword(position), w) <==> Flip(a) == w || s == w
      ensures Contains(TargetKeyword(position), w) <==> a == w || s == w
    {
      WordsContain(Flip(a), s, w);
      WordsContain(a, s, w);
    }
  }

  lemma PlacedLeftByAnchor(position: string, p: Point, mySize: Size, b: Point, theirSize: Size)
    requires NameShape(position)
    requires forall w | IsSide(w) :: Contains(ElementKeyword(position), w) <==> Flip(Primary(position)) == w || Secondary(position) == w
    requires forall w | IsSide(w) :: Contains(TargetKeyword(position), w) <==> Primary(position) == w || Secondary(position) == w
    requires p.left + AnchorX(ElementKeyword(position), mySize.width)
          == b.left + AnchorX(TargetKeyword(position), theirSize.width)
    ensures PlacedLeft(position, p, mySize, b, theirSize)
  {
    assert IsSide("left") && IsSide("right");
  }

  lemma PlacedTopByAnchor(position: string, p: Point, mySize: Size, b: Point, theirSize: Size)
    requires NameShape(position)
    requires forall w | IsSide(w) :: Contains(ElementKeyword(position), w) <==> Flip(Primary(position)) == w || Secondary(position) == w
    requires forall w | IsSide(w) :: Contains(TargetKeyword(position), w) <==> Primary(position) == w || Secondary(position) == w
    requires p.top + AnchorY(ElementKeyword(position), mySize.height)
          == b.top + AnchorY(TargetKeyword(position), theirSize.height)
    ensures PlacedTop(position, p, mySize, b, theirSize)
  {
    assert IsSide("top") && IsSide("bottom");
  }

  /** `getAxis` on names of that shape: `'y'` exactly for the `top-*` and
      `bottom-*` ones. */
  lemma AxisOfNames(position: string)
    requires NameShape(position)
    ensures GetAxis(position) == "y" <==> Vertical(Primary(position))
  {
    var a := Primary(position);
    forall w | Vertical(w) ensures Contains(a, w) <==> a == w {
      if a == w {
        assert a[..|w|] == w;
      } else {
        MissingChar(a, w, KeyChar(w));
      }
    }
  }

  // ---------------------------------------------------------------------
  // The element's class list
  // ---------------------------------------------------------------------

  /** `cls.match(/uk-drop-/)`: a position class. */
  predicate IsDropClass(c: string)
  {
    Contains(c, "uk-drop-")
  }

  /** No token occurs twice, as in a `DOMTokenList`. */
  predicate NoDup(s: seq<string>)
  {
    forall i, j :: 0 <= i < j < |s| ==> s[i] != s[j]
  }

  /** `cls` without the classes `drop` picks, order kept. */
  function Kept(cls: seq<string>, drop: string -> bool): (r: seq<string>)
    ensures |r| <= |cls|
  {
    if |cls| == 0 then []
    else
      var rest := Kept(cls[..|cls| - 1], drop);
      var last := cls[|cls| - 1];
      if drop(last) then rest else rest + [last]
  }

  /** The class list without its position classes, order kept: what
      removing every `uk-drop-` class leaves. */
  function WithoutDropClasses(cls: seq<string>): (r: seq<string>)
    ensures |r| <= |cls|
  {
    Kept(cls, IsDropClass)
  }

  /** Filtering keeps exactly the classes `drop` does not pick. */
  lemma {:induction false} KeptMembers(cls: seq<string>, drop: string -> bool)
    ensures forall c :: c in Kept(cls, drop) <==> c in cls && !drop(c)
  {
    if |cls| > 0 {
      var init, last := cls[..|cls| - 1], cls[|cls| - 1];
      KeptMembers(init, drop);
      assert cls == init + [last];
      forall c ensures c in Kept(cls, drop) <==> c in cls && !drop(c) {
        assert c in cls <==> c in init || c == last;
      }
    }
  }

  /** Filtering keeps a token list free of duplicates. */
  lemma {:induction false} KeptNoDup(cls: seq<string>, drop: string -> bool)
    requires NoDup(cls)
    ensures NoDup(Kept(cls, drop))
  {
    if |cls| > 0 {
      var init, last := cls[..|cls| - 1], cls[|cls| - 1];
      assert NoDup(init) by {
        forall i, j | 0 <= i < j < |init| ensures init[i] != init[j] {
          assert init[i] == cls[i] && init[j] == cls[j];
        }
      }
      KeptNoDup(init, drop);
      KeptMembers(init, drop);
      assert last !in init by {
        forall i | 0 <= i < |init| ensures init[i] != last {
          assert init[i] == cls[i];
        }
      }
    }
  }

  /** Removing the position classes keeps exactly the other classes. */
  lemma WithoutDropMembers(cls: seq<string>)
    ensures forall c :: c in WithoutDropClasses(cls) <==> c in cls && !IsDropClass(c)
  {
    KeptMembers(cls, IsDropClass);
  }

  /** Removing the position classes keeps a token list free of duplicates. */
  lemma WithoutDropNoDup(cls: seq<string>)
    requires NoDup(cls)
    ensures NoDup(WithoutDropClasses(cls))
  {
    KeptNoDup(cls, IsDropClass);
  }

  /** `el.classList.forEach(cls => { if (drop(cls)) removeClass(el, cls) })`
      from index `k` on: `forEach` visits index `k` of the live list for
      `k` below the length `len` it started with, so removing the token at
      `k` shifts the next one onto `k` and the loop steps over it. */
  function LiveRemovalFrom(cur: seq<string>, k: nat, len: nat, drop: string -> bool): seq<string>
    decreases len - k
  {
    if k >= len then cur
    else if k < |cur| && drop(cur[k]) then
      LiveRemovalFrom(RemoveToken(cur, cur[k]), k + 1, len, drop)
    else LiveRemovalFrom(cur, k + 1, len, drop)
  }

  /** The position classes removed as written, by the live `forEach`. */
  function LiveRemoval(cls: seq<string>): seq<string>
  {
    LiveRemovalFrom(cls, 0, |cls|, IsDropClass)
  }

  /** `classList.remove(t)`. */
  function RemoveToken(cls: seq<string>, t: string): (r: seq<string>)
    ensures forall c :: c in r <==> c in cls && c != t
  {
    if |cls| == 0 then []
    else (if cls[0] == t then [] else [cls[0]]) + RemoveToken(cls[1..], t)
  }

  /** Two position classes in a row: the loop as written removes the first
      and leaves the second, where every position class should go. */
  lemma LiveRemovalSkips()
    ensures var cls := ["uk-drop-top-left", "uk-drop-bottom-left"];
      && LiveRemoval(cls) == ["uk-drop-bottom-left"]
      && WithoutDropClasses(cls) == []
  {
    var cls := ["uk-drop-top-left", "uk-drop-bottom-left"];
    assert cls[0][..8] == "uk-drop-";
    assert cls[1][..8] == "uk-drop-";
    assert IsDropClass(cls[0]) && IsDropClass(cls[1]);
    assert RemoveToken(cls, cls[0]) == [cls[1]];
    assert LiveRemovalFrom([cls[1]], 2, 2, IsDropClass) == [cls[1]];
    assert cls[..1] == [cls[0]];
    assert Kept([cls[0]], IsDropClass) == [];
  }

  /** At most one class of the list is picked by `drop`. */
  predicate AtMostOne(cls: seq<string>, drop: string -> bool)
  {
    forall i, j :: 0 <= i < |cls| && 0 <= j < |cls| && drop(cls[i]) && drop(cls[j]) ==> i == j
  }

  /** At most one class of the list is a position class. */
  predicate AtMostOneDrop(cls: seq<string>)
  {
    AtMostOne(cls, IsDropClass)
  }

  /** With at most one position class the live removal as written removes
      every position class, like the corrected one. */
  lemma LiveRemovalOneDrop(cls: seq<string>)
    requires AtMostOneDrop(cls)
    ensures LiveRemoval(cls) == WithoutDropClasses(cls)
  {
    LiveRemovalAgrees(cls, 0, |cls|, IsDropClass);
  }

  /** The live removal from index `k` on, when no picked class comes before
      `k` and at most one comes at or after it, is the filter. */
  lemma {:induction false} LiveRemovalAgrees(cur: seq<string>, k: nat, len: nat, drop: string -> bool)
    requires |cur| <= len
    requires forall j :: 0 <= j < k && j < |cur| ==> !drop(cur[j])
    requires AtMostOne(cur, drop)
    ensures LiveRemovalFrom(cur, k, len, drop) == Kept(cur, drop)
    decreases len - k
  {
    if k >= len {
      KeptNone(cur, drop);
    } else if k < |cur| && drop(cur[k]) {
      LiveRemovalAt(cur, k, len, drop);
    } else {
      LiveRemovalAgrees(cur, k + 1, len, drop);
    }
  }

  /** The live removal reaching the one picked class removes it and leaves
      the rest as it is. */
  lemma LiveRemovalAt(cur: seq<string>, k: nat, len: nat, drop: string -> bool)
    requires |cur| <= len && k < |cur| && drop(cur[k])
    requires AtMostOne(cur, drop)
    ensures LiveRemovalFrom(cur, k, len, drop) == Kept(cur, drop)
  {
    OnlyPicked(cur, k, drop);
    RemoveTokenAt(cur, k);
    var rest := cur[..k] + cur[k + 1..];
    NoneAround(cur, k, rest, drop);
    LiveNone(rest, k + 1, len, drop);
    KeptOne(cur, k, drop);
  }

  /** Every other class differs from the one picked class. */
  lemma OnlyPicked(cur: seq<string>, k: nat, drop: string -> bool)
    requires k < |cur| && drop(cur[k]) && AtMostOne(cur, drop)
    ensures forall j :: 0 <= j < |cur| && j != k ==> !drop(cur[j]) && cur[j] != cur[k]
  {
  }

  lemma NoneAround(cur: seq<string>, k: nat, rest: seq<string>, drop: string -> bool)
    requires k < |cur| && rest == cur[..k] + cur[k + 1..]
    requires forall j :: 0 <= j < |cur| && j != k ==> !drop(cur[j])
    ensures forall j :: 0 <= j < |rest| ==> !drop(rest[j])
  {
    forall j | 0 <= j < |rest| ensures rest[j] == if j < k then cur[j] else cur[j + 1] {
    }
  }

  /** Filtering a list with one picked class, at `k`. */
  lemma KeptOne(cur: seq<string>, k: nat, drop: string -> bool)
    requires k < |cur| && drop(cur[k])
    requires forall j :: 0 <= j < |cur| && j != k ==> !drop(cur[j])
    ensures Kept(cur, drop) == cur[..k] + cur[k + 1..]
  {
    var a, b := cur[..k], cur[k + 1..];
    Around(cur, k);
    NoneSlices(cur, k, a, b, drop);
    KeptNone(a, drop);
    KeptNone(b, drop);
    KeptAround(a, cur[k], b, drop);
  }

  /** A list is its slices around `k`. */
  lemma Around(cur: seq<string>, k: nat)
    requires k < |cur|
    ensures cur == cur[..k] + [cur[k]] + cur[k + 1..]
  {
  }

  /** Filtering around a picked class. */
  lemma KeptAround(a: seq<string>, c: string, b: seq<string>, drop: string -> bool)
    requires drop(c)
    ensures Kept(a + [c] + b, drop) == Kept(a, drop) + Kept(b, drop)
  {
    KeptAppend(a + [c], b, drop);
    KeptAppend(a, [c], drop);
    KeptPicked(c, drop);
  }

  lemma KeptPicked(c: string, drop: string -> bool)
    requires drop(c)
    ensures Kept([c], drop) == []
  {
    assert [c][..0] == [];
  }

  lemma NoneSlices(cur: seq<string>, k: nat, a: seq<string>, b: seq<string>, drop: string -> bool)
    requires k < |cur| && a == cur[..k] && b == cur[k + 1..]
    requires forall j :: 0 <= j < |cur| && j != k ==> !drop(cur[j])
    ensures forall j :: 0 <= j < |a| ==> !drop(a[j])
    ensures forall j :: 0 <= j < |b| ==> !drop(b[j])
  {
    assert forall j :: 0 <= j < |a| ==> a[j] == cur[j];
    assert forall j :: 0 <= j < |b| ==> b[j] == cur[k + 1 + j];
  }

  /** The live removal leaves a list without picked classes alone. */
  lemma {:induction false} LiveNone(cur: seq<string>, k: nat, len: nat, drop: string -> bool)
    requires forall j :: 0 <= j < |cur| ==> !drop(cur[j])
    ensures LiveRemovalFrom(cur, k, len, drop) == cur
    decreases len - k
  {
    if k < len {
      LiveNone(cur, k + 1, len, drop);
    }
  }

  /** Filtering a list without picked classes changes nothing. */
  lemma {:induction false} KeptNone(cls: seq<string>, drop: string -> bool)
    requires forall j :: 0 <= j < |cls| ==> !drop(cls[j])
    ensures Kept(cls, drop) == cls
  {
    if |cls| > 0 {
      KeptNone(cls[..|cls| - 1], drop);
      assert cls == cls[..|cls| - 1] + [cls[|cls| - 1]];
    }
  }

  /** Filtering distributes over concatenation. */
  lemma {:induction false} KeptAppend(a: seq<string>, b: seq<string>, drop: string -> bool)
    ensures Kept(a + b, drop) == Kept(a, drop) + Kept(b, drop)
  {
    if |b| > 0 {
      var b' := b[..|b| - 1];
      KeptAppend(a, b', drop);
      assert (a + b)[..|a + b| - 1] == a + b';
      assert (a + b)[|a + b| - 1] == b[|b| - 1];
    } else {
      assert a + b == a;
    }
  }

  /** A token that occurs only at `k` is removed from there alone. */
  lemma RemoveTokenAt(cur: seq<string>, k: nat)
    requires k < |cur|
    requires forall j :: 0 <= j < |cur| && j != k ==> cur[j] != cur[k]
    ensures RemoveToken(cur, cur[k]) == cur[..k] + cur[k + 1..]
  {
    OnlyAt(cur, k);
    Around(cur, k);
    RemoveTokenAround(cur[..k], cur[k], cur[k + 1..]);
    RemoveTokenAbsent(cur[..k], cur[k]);
    RemoveTokenAbsent(cur[k + 1..], cur[k]);
  }

  /** Removing a token from around one occurrence of it. */
  lemma RemoveTokenAround(a: seq<string>, t: string, b: seq<string>)
    ensures RemoveToken(a + [t] + b, t) == RemoveToken(a, t) + RemoveToken(b, t)
  {
    assert a + [t] + b == a + ([t] + b);
    RemoveTokenAppend(a, [t] + b, t);
    RemoveTokenHead(t, b);
  }

  lemma OnlyAt(cur: seq<string>, k: nat)
    requires k < |cur|
    requires forall j :: 0 <= j < |cur| && j != k ==> cur[j] != cur[k]
    ensures cur[k] !in cur[..k] && cur[k] !in cur[k + 1..]
  {
    var a, b := cur[..k], cur[k + 1..];
    forall j | 0 <= j < |a| ensures a[j] != cur[k] {
      assert a[j] == cur[j];
    }
    forall j | 0 <= j < |b| ensures b[j] != cur[k] {
      assert b[j] == cur[k + 1 + j];
    }
  }

  lemma RemoveTokenHead(t: string, b: seq<string>)
    ensures RemoveToken([t] + b, t) == RemoveToken(b, t)
  {
    assert ([t] + b)[1..] == b;
  }

  lemma {:induction false} RemoveTokenAppend(a: seq<string>, b: seq<string>, t: string)
    ensures RemoveToken(a + b, t) == RemoveToken(a, t) + RemoveToken(b, t)
  {
    if |a| > 0 {
      assert (a + b)[1..] == a[1..] + b;
      assert (a + b)[0] == a[0];
      RemoveTokenAppend(a[1..], b, t);
    } else {
      assert a + b == b;
    }
  }

  lemma {:induction false} RemoveTokenAbsent(a: seq<string>, t: string)
    requires t !in a
    ensures RemoveToken(a, t) == a
  {
    if |a| > 0 {
      assert a[0] != t;
      assert forall c :: c in a[1..] ==> c in a;
      RemoveTokenAbsent(a[1..], t);
      assert a == [a[0]] + a[1..];
    }
  }

  /** `classList.add(t)`: appended unless already there. */
  function AddToken(cls: seq<string>, t: string): seq<string>
  {
    if t in cls then cls else cls + [t]
  }

  /** `addClass(el, classes)` with the words already sanitized: each word
      is added in turn. */
  function AddTokens(cls: seq<string>, ts: seq<string>): (r: seq<string>)
    ensures cls <= r
    ensures forall c :: c in r <==> c in cls || c in ts
    ensures NoDup(cls) ==> NoDup(r)
  {
    if |ts| == 0 then cls
    else
      var r := AddToken(AddTokens(cls, ts[..|ts| - 1]), ts[|ts| - 1]);
      assert ts == ts[..|ts| - 1] + [ts[|ts| - 1]];
      r
  }

  /** The class for a position: `'uk-drop-' + position`, sanitized. For
      the fourteen names it is the single word `uk-drop-<name>`. */
  lemma DropClassOfName(position: string)
    requires position in PositionNames
    ensures Sanitize("uk-drop-" + position) == ["uk-drop-" + position]
    ensures IsDropClass("uk-drop-" + position)
  {
    var w := "uk-drop-" + position;
    NameSpaceFree(position);
    ContainsPrefix("uk-drop-", position);
    SanitizeJoin([w]);
  }

  /** No name has a space in it. */
  lemma NameSpaceFree(position: string)
    requires position in PositionNames
    ensures ' ' !in "uk-drop-" + position
  {
    NameParts(position);
    SpaceFreeConcat("uk-drop-", position);
  }

  lemma SpaceFreeConcat(x: string, y: string)
    requires ' ' !in x && ' ' !in y
    ensures ' ' !in x + y
  {
  }

  lemma SpaceFree(v: string)
    requires IsWord(v)
    ensures ' ' !in v
  {
  }

  /** A string occurs in any string it starts. */
  lemma ContainsPrefix(w: string, a: string)
    ensures Contains(w + a, w)
  {
    assert (w + a)[..|w|] == w;
  }

  /** After `positionEl` with one of the fourteen names the class list
      holds that name's position class and no other. */
  lemma ClassesAfter(cls: seq<string>, position: string)
    requires position in PositionNames
    ensures var r := AddTokens(WithoutDropClasses(cls), Sanitize("uk-drop-" + position));
      && ("uk-drop-" + position) in r
      && forall c :: c in r && IsDropClass(c) ==> c == "uk-drop-" + position
  {
    WithoutDropMembers(cls);
    DropClassOfName(position);
  }

  /** The same after the removal as written, when the list had at most one
      position class before. */
  lemma ClassesAfterLive(cls: seq<string>, position: string)
    requires position in PositionNames && AtMostOneDrop(cls)
    ensures var r := AddTokens(LiveRemoval(cls), Sanitize("uk-drop-" + position));
      && ("uk-drop-" + position) in r
      && forall c :: c in r && IsDropClass(c) ==> c == "uk-drop-" + position
  {
    LiveRemovalOneDrop(cls);
    ClassesAfter(cls, position);
  }

  /** The two `justify` names are vertical: `positionEl` sets their width. */
  lemma JustifyAxis(position: string)
    requires NameShape(position) && Secondary(position) == "justify"
    ensures GetAxis(position) == "y"
  {
    AxisOfNames(position);
  }

  /** A `justify` placement of an element as wide as its target starts at
      the target's left edge. */
  lemma JustifySpan(position: string, p: Point, mySize: Size, b: Point, theirSize: Size)
    requires NameShape(position) && Secondary(position) == "justify"
    requires Placed(position, p, mySize, b, theirSize)
    requires mySize.width == theirSize.width
    ensures p.left == b.left
  {
    assert Vertical(Primary(position));
  }

  /** The positioned element: its class list, the inline `width` and
      `height` that `positionEl` sets or clears, its inline `top`/`left`,
      and the size it has without inline dimensions. */
  class DropElement {
    var classes: seq<string>
    var styleWidth: Option<real>
    var styleHeight: Option<real>
    var top: real
    var left: real
    var natural: Size

    constructor (classes: seq<string>, natural: Size)
      ensures this.classes == classes && this.natural == natural
      ensures styleWidth == None && styleHeight == None
      ensures top == 0.0 && left == 0.0
    {
      this.classes := classes;
      this.natural := natural;
      styleWidth := None;
      styleHeight := None;
      top := 0.0;
      left := 0.0;
    }

    /** `size(el)`: an inline dimension wins over the natural one. */
    function Measured(): Size
      reads this
    {
      Size(match styleWidth case Some(w) => w case None => natural.width,
           match styleHeight case Some(h) => h case None => natural.height)
    }

    /** Removes every position class, order kept. */
    method RemoveDropClasses()
      modifies this
      ensures classes == WithoutDropClasses(old(classes))
      ensures styleWidth == old(styleWidth) && styleHeight == old(styleHeight)
      ensures top == old(top) && left == old(left) && natural == old(natural)
    {
      var snapshot := classes;
      var kept: seq<string> := [];
      var k := 0;
      while k < |snapshot|
        invariant 0 <= k <= |snapshot|
        invariant kept == WithoutDropClasses(snapshot[..k])
      {
        assert snapshot[..k + 1][..k] == snapshot[..k];
        if !IsDropClass(snapshot[k]) {
          kept := kept + [snapshot[k]];
        }
        k := k + 1;
      }
      assert snapshot[..k] == snapshot;
      classes := kept;
    }

    /** `el.classList.forEach(cls => { if (cls.match(/uk-drop-/))
        removeClass(el, cls) })` as written: index `k` runs up to the
        length the list had at the start, over the live list. */
    method RemoveDropClassesLive()
      modifies this
      ensures classes == LiveRemoval(old(classes))
      ensures styleWidth == old(styleWidth) && styleHeight == old(styleHeight)
      ensures top == old(top) && left == old(left) && natural == old(natural)
    {
      var len := |classes|;
      var k := 0;
      while k < len
        invariant 0 <= k <= len
        invariant LiveRemovalFrom(classes, k, len, IsDropClass) == LiveRemoval(old(classes))
        invariant styleWidth == old(styleWidth) && styleHeight == old(styleHeight)
        invariant top == old(top) && left == old(left) && natural == old(natural)
      {
        if k < |classes| && IsDropClass(classes[k]) {
          classes := RemoveToken(classes, classes[k]);
        }
        k := k + 1;
      }
    }

    /** `addClass(el, 'uk-drop-' + position)`. */
    method AddPositionClass(position: string)
      modifies this
      ensures classes == AddTokens(old(classes), Sanitize("uk-drop-" + position))
      ensures position in PositionNames ==> ("uk-drop-" + position) in classes
      ensures styleWidth == old(styleWidth) && styleHeight == old(styleHeight)
      ensures top == old(top) && left == old(left) && natural == old(natural)
    {
      classes := AddTokens(classes, Sanitize("uk-drop-" + position));
      if position in PositionNames {
        DropClassOfName(position);
      }
    }

    /** The part of `positionEl` between removing the old position class
        and adding the new one: size the element for `justify` or clear its
        inline size, and place it with `getCords`. */
    method Place(position: string, targetSize: Size, targetOffset: Point,
                 parent: OffsetParent)
      modifies this
      ensures natural == old(natural)
      ensures Secondary(position) == "justify" ==>
        if GetAxis(position) == "y" then
          styleWidth == Some(targetSize.width) && styleHeight == old(styleHeight)
        else
          styleHeight == Some(targetSize.height) && styleWidth == old(styleWidth)
      ensures Secondary(position) != "justify" ==> styleWidth == None && styleHeight == None
      ensures left + AnchorX(ElementKeyword(position), Measured().width)
           == Base(targetOffset, parent).left + AnchorX(TargetKeyword(position), targetSize.width)
      ensures top + AnchorY(ElementKeyword(position), Measured().height)
           == Base(targetOffset, parent).top + AnchorY(TargetKeyword(position), targetSize.height)
      ensures classes == old(classes)
      ensures position in PositionNames ==>
        Placed(position, Point(top, left), Measured(), Base(targetOffset, parent), targetSize)
      ensures position in PositionNames && Secondary(position) == "justify" ==>
        Measured().width == targetSize.width && left == Base(targetOffset, parent).left
    {
      var dir := PartOrUndefined(Split(position, '-'), 1);
      var justify := dir == "justify";

      if justify {
        if GetAxis(position) == "y" {
          styleWidth := Some(targetSize.width);
        } else {
          styleHeight := Some(targetSize.height);
        }
      } else {
        styleWidth := None;
        styleHeight := None;
      }

      var cords := GetCords(position, Measured(), targetSize, targetOffset, parent);
      top := cords.top;
      left := cords.left;

      if position in PositionNames {
        NameParts(position);
        if dir == "justify" {
          JustifyAxis(position);
          JustifySpan(position, Point(top, left), Measured(), Base(targetOffset, parent), targetSize);
        }
      }
    }

    /** `positionEl(el, binding, vnode)` as written, for a resolved
        `position`, the target's size and offset, and the element's offset
        parent. The old position classes are removed by the live `forEach`,
        so the new class is the only position class when the list had at
        most one before. */
    method PositionEl(position: string, targetSize: Size, targetOffset: Point,
                      parent: OffsetParent)
      modifies this
      ensures natural == old(natural)
      ensures Secondary(position) == "justify" ==>
        if GetAxis(position) == "y" then
          styleWidth == Some(targetSize.width) && styleHeight == old(styleHeight)
        else
          styleHeight == Some(targetSize.height) && styleWidth == old(styleWidth)
      ensures Secondary(position) != "justify" ==> styleWidth == None && styleHeight == None
      ensures left + AnchorX(ElementKeyword(position), Measured().width)
           == Base(targetOffset, parent).left + AnchorX(TargetKeyword(position), targetSize.width)
      ensures top + AnchorY(ElementKeyword(position), Measured().height)
           == Base(targetOffset, parent).top + AnchorY(TargetKeyword(position), targetSize.height)
      ensures classes == AddTokens(LiveRemoval(old(classes)), Sanitize("uk-drop-" + position))
      ensures position in PositionNames ==>
        Placed(position, Point(top, left), Measured(), Base(targetOffset, parent), targetSize)
      ensures position in PositionNames ==> ("uk-drop-" + position) in classes
      ensures position in PositionNames && AtMostOneDrop(old(classes)) ==>
        forall c :: c in classes && IsDropClass(c) ==> c == "uk-drop-" + position
      ensures position in PositionNames && Secondary(position) == "justify" ==>
        Measured().width == targetSize.width && left == Base(targetOffset, parent).left
    {
      RemoveDropClassesLive();
      Place(position, targetSize, targetOffset, parent);
      AddPositionClass(position);
      if position in PositionNames && AtMostOneDrop(old(classes)) {
        ClassesAfterLive(old(classes), position);
      }
    }

    /** `positionEl` with every old position class removed: afterwards the
        class for the new position is the only one. */
    method PositionElFixed(position: string, targetSize: Size, targetOffset: Point,
                           parent: OffsetParent)
      modifies this
      ensures natural == old(natural)
      ensures Secondary(position) == "justify" ==>
        if GetAxis(position) == "y" then
          styleWidth == Some(targetSize.width) && styleHeight == old(styleHeight)
        else
          styleHeight == Some(targetSize.height) && styleWidth == old(styleWidth)
      ensures Secondary(position) != "justify" ==> styleWidth == None && styleHeight == None
      ensures left + AnchorX(ElementKeyword(position), Measured().width)
           == Base(targetOffset, parent).left + AnchorX(TargetKeyword(position), targetSize.width)
      ensures top + AnchorY(ElementKeyword(position), Measured().height)
           == Base(targetOffset, parent).top + AnchorY(TargetKeyword(position), targetSize.height)
      ensures classes == AddTokens(WithoutDropClasses(old(classes)), Sanitize("uk-drop-" + position))
      ensures position in PositionNames ==>
        Placed(position, Point(top, left), Measured(), Base(targetOffset, parent), targetSize)
      ensures position in PositionNames ==>
        && ("uk-drop-" + position) in classes
        && forall c :: c in classes && IsDropClass(c) ==> c == "uk-drop-" + position
      ensures position in PositionNames && Secondary(position) == "justify" ==>
        Measured().width == targetSize.width && left == Base(targetOffset, parent).left
    {
      RemoveDropClasses();
      Place(position, targetSize, targetOffset, parent);
      AddPositionClass(position);
      if position in PositionNames {
        ClassesAfter(old(classes), position);
      }
    }
  }
}
