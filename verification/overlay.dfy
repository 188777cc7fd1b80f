/** The drawing loop `for box in boxes:` of the hazard analyzer: which parsed
    entries are drawn, which are skipped and which raise, and the OpenCV calls
    a drawn entry makes on the turned frame. */
module Overlay {
  import opened Py
  import opened Media

  const BoxKey := "box_2d"
  const LabelKey := "label"
  const BoxColour := Bgr(0, 255, 0)
  const BoxThickness := 2
  const FontScale := 0.6
  const TextColour := Bgr(0, 0, 0)
  const FontThickness := 2
  /** The label's origin lies this many pixels above the box's top edge. */
  const LabelLift := 10

  /** `v` is a list of exactly four integers. */
  predicate FourInts(v: Json) {
    v.JArr? && |v.items| == 4 && forall k :: 0 <= k < 4 ==> v.items[k].JInt?
  }

  /** An entry the loop draws: a dict whose "box_2d" is four integers
      `[ymin, xmin, ymax, xmax]` and whose "label" is a string. */
  predicate Drawable(box: Json) {
    && box.JObj?
    && BoxKey in box.fields && FourInts(box.fields[BoxKey])
    && LabelKey in box.fields && box.fields[LabelKey].JStr?
  }

  /** `ymin, xmin, ymax, xmax = v` and OpenCV's reading of the corners built
      from them: unpacking succeeds on any value of length four, but only
      integers are accepted as pixel coordinates. */
  function Corners(v: Json): (r: Result<(int, int, int, int)>)
    ensures r.Ok? <==> FourInts(v)
    ensures r.Ok? ==> Len(v) == Ok(4) && r.value == (v.items[0].i, v.items[1].i, v.items[2].i, v.items[3].i)
    ensures r.Err? ==> r.error == OpenCvError
  {
    if FourInts(v) then Ok((v.items[0].i, v.items[1].i, v.items[2].i, v.items[3].i))
    else Err(OpenCvError)
  }

  /** The drawing calls one entry makes, or the exception it raises. */
  function EntryDraws(box: Json): (r: Result<seq<Draw>>)
    ensures r.Ok? && r.value != [] <==> Drawable(box)
    ensures Drawable(box) ==>
      var c := box.fields[BoxKey].items;
      r.value == [ Rect(Point(c[1].i, c[0].i), Point(c[3].i, c[2].i), BoxColour, BoxThickness),
                   Text(box.fields[LabelKey].s, Point(c[1].i, c[0].i - LabelLift), FontScale, TextColour, FontThickness) ]
    ensures box.JObj? && BoxKey !in box.fields ==> r == Ok([])
    ensures box.JObj? && BoxKey in box.fields && Len(box.fields[BoxKey]).Ok? && Len(box.fields[BoxKey]).value != 4
      ==> r == Ok([])
    ensures box.JObj? && BoxKey in box.fields && Len(box.fields[BoxKey]).Err? ==> r == Err(TypeError)
    ensures box.JObj? && BoxKey in box.fields && Len(box.fields[BoxKey]) == Ok(4) && !FourInts(box.fields[BoxKey])
      ==> r == Err(OpenCvError)
    ensures box.JObj? && BoxKey in box.fields && FourInts(box.fields[BoxKey]) && LabelKey !in box.fields
      ==> r == Err(KeyError(LabelKey))
    ensures box.JObj? && BoxKey in box.fields && FourInts(box.fields[BoxKey]) &&
            LabelKey in box.fields && !box.fields[LabelKey].JStr?
      ==> r == Err(OpenCvError)
    ensures box.JArr? ==> (r == Ok([]) <==> JStr(BoxKey) !in box.items) && (r.Err? ==> r.error == TypeError)
    ensures box.JStr? ==> (r == Ok([]) <==> !Contains(box.s, BoxKey)) && (r.Err? ==> r.error == TypeError)
    ensures box.JNull? || box.JBool? || box.JInt? || box.JFloat? ==> r == Err(TypeError)
  {
    match In(BoxKey, box)
    case Err(e) => Err(e)
    case Ok(present) =>
      if !present then Ok([])
      else
        match GetItem(box, BoxKey)
        case Err(e) => Err(e)
        case Ok(b) =>
          match Len(b)
          case Err(e) => Err(e)
          case Ok(n) =>
            if n != 4 then Ok([])
            else
              match Corners(b)
              case Err(e) => Err(e)
              case Ok(c) =>
                var (ymin, xmin, ymax, xmax) := c;
                match GetItem(box, LabelKey)
                case Err(e) => Err(e)
                case Ok(caption) =>
                  if !caption.JStr? then Err(OpenCvError)  // cv2.getTextSize wants a str
                  else Ok([ Rect(Point(xmin, ymin), Point(xmax, ymax), BoxColour, BoxThickness),
                            Text(caption.s, Point(xmin, ymin - LabelLift), FontScale, TextColour, FontThickness) ])
  }

  /** The drawing calls the loop makes for the entries `items`, in order, or
      the exception of the first entry that raises. */
  function ItemsDraws(items: seq<Json>): (r: Result<seq<Draw>>)
    ensures r.Ok? ==> |r.value| <= 2 * |items|
    ensures r.Ok? && r.value != [] ==> exists k :: 0 <= k < |items| && Drawable(items[k])
    decreases |items|
  {
    if items == [] then Ok([])
    else
      match ItemsDraws(items[..|items| - 1])
      case Err(e) => Err(e)
      case Ok(ds) =>
        match EntryDraws(items[|items| - 1])
        case Err(e) => Err(e)
        case Ok(d) => Ok(ds + d)
  }

  /** The drawing calls `for box in boxes:` makes for a parsed reply. Iterating
      a string yields one-character strings, which never contain "box_2d";
      iterating a dict yields its keys, and a key containing "box_2d" is then
      indexed with a string. */
  function FrameDraws(boxes: Json): (r: Result<seq<Draw>>)
    ensures !boxes.JArr? && r.Ok? ==> r.value == []
    ensures boxes.JStr? ==> r == Ok([])
    ensures boxes.JObj? ==> (r.Err? <==> exists key | key in boxes.fields :: Contains(key, BoxKey))
    ensures r.Err? && !boxes.JArr? ==> r.error == TypeError
    ensures boxes.JNull? || boxes.JBool? || boxes.JInt? || boxes.JFloat? ==> r == Err(TypeError)
  {
    match boxes
    case JArr(items) => ItemsDraws(items)
    case JStr(_) => Ok([])
    case JObj(m) => if exists key | key in m :: Contains(key, BoxKey) then Err(TypeError) else Ok([])
    case _ => Err(TypeError)  // a number, a bool or None is not iterable
  }

  /** The loop raises exactly when some entry raises, and then with the
      exception of the first such entry; when no entry is drawable and none
      raises, nothing is drawn. */
  lemma {:induction false} ItemsDrawsOutcome(items: seq<Json>)
    ensures ItemsDraws(items).Ok? <==> forall k :: 0 <= k < |items| ==> EntryDraws(items[k]).Ok?
    ensures ItemsDraws(items).Err? ==>
      exists k :: 0 <= k < |items| && EntryDraws(items[k]) == Err(ItemsDraws(items).error)
                  && forall k' :: 0 <= k' < k ==> EntryDraws(items[k']).Ok?
    ensures (forall k :: 0 <= k < |items| ==> EntryDraws(items[k]).Ok? && !Drawable(items[k]))
      ==> ItemsDraws(items) == Ok([])
    decreases |items|
  {
    if items != [] {
      var n := |items| - 1;
      var front := items[..n];
      ItemsDrawsOutcome(front);
      assert forall k :: 0 <= k < n ==> front[k] == items[k];
      if ItemsDraws(front).Err? {
        var k :| 0 <= k < n && EntryDraws(front[k]) == Err(ItemsDraws(front).error)
                 && forall k' :: 0 <= k' < k ==> EntryDraws(front[k']).Ok?;
        assert EntryDraws(items[k]) == Err(ItemsDraws(items).error);
      } else if EntryDraws(items[n]).Err? {
        assert forall k' :: 0 <= k' < n ==> EntryDraws(items[k']).Ok?;
      } else if forall k :: 0 <= k < |items| ==> EntryDraws(items[k]).Ok? && !Drawable(items[k]) {
        assert ItemsDraws(front) == Ok([]);
        assert EntryDraws(items[n]) == Ok([]);
        assert ItemsDraws(items) == Ok(ItemsDraws(front).value + EntryDraws(items[n]).value);
        assert ItemsDraws(items).value == [];
        assert ItemsDraws(items) == Ok([]);
      }
    }
  }

  /** The number of drawable entries among `items`. */
  function DrawableCount(items: seq<Json>): (c: nat)
    ensures c <= |items|
    decreases |items|
  {
    if items == [] then 0
    else DrawableCount(items[..|items| - 1]) + if Drawable(items[|items| - 1]) then 1 else 0
  }

  /** When the loop completes, every drawable entry's rectangle and label are
      among the calls, and the loop makes exactly two calls per drawable
      entry and none for the others. */
  lemma {:induction false} ItemsDrawsEveryDrawable(items: seq<Json>)
    requires ItemsDraws(items).Ok?
    ensures |ItemsDraws(items).value| == 2 * DrawableCount(items)
    ensures forall k :: 0 <= k < |items| && Drawable(items[k]) ==>
      EntryDraws(items[k]).value[0] in ItemsDraws(items).value &&
      EntryDraws(items[k]).value[1] in ItemsDraws(items).value
    decreases |items|
  {
    if items != [] {
      var n := |items| - 1;
      var front := items[..n];
      assert ItemsDraws(front).Ok? && EntryDraws(items[n]).Ok?;
      ItemsDrawsEveryDrawable(front);
      assert forall k :: 0 <= k < n ==> front[k] == items[k];
      var before := ItemsDraws(front).value;
      var last := EntryDraws(items[n]).value;
      assert ItemsDraws(items).value == before + last;
      if !Drawable(items[n]) {
        assert last == [];
      }
      forall k | 0 <= k < |items| && Drawable(items[k])
        ensures EntryDraws(items[k]).value[0] in before + last
        ensures EntryDraws(items[k]).value[1] in before + last
      {
        if k < n {
          assert EntryDraws(front[k]).value[0] in before;
          assert EntryDraws(front[k]).value[1] in before;
        } else {
          assert last[0] in before + last && last[1] in before + last;
        }
      }
    }
  }

  /** For entries that are all strings (the characters of a string, the keys
      of a dict) the loop draws nothing, and raises TypeError exactly when one
      of them contains "box_2d". */
  lemma {:induction false} StringEntriesDraws(ks: seq<Json>)
    requires forall k :: 0 <= k < |ks| ==> ks[k].JStr?
    ensures ItemsDraws(ks) ==
      if exists k :: 0 <= k < |ks| && Contains(ks[k].s, BoxKey) then Err(TypeError) else Ok([])
    decreases |ks|
  {
    if ks != [] {
      var n := |ks| - 1;
      StringEntriesDraws(ks[..n]);
      assert forall k :: 0 <= k < n ==> ks[..n][k] == ks[k];
      if exists k :: 0 <= k < n && Contains(ks[..n][k].s, BoxKey) {
        var k :| 0 <= k < n && Contains(ks[..n][k].s, BoxKey);
        assert Contains(ks[k].s, BoxKey);
      } else if Contains(ks[n].s, BoxKey) {
        assert EntryDraws(ks[n]) == Err(TypeError);
      } else {
        assert EntryDraws(ks[n]) == Ok([]);
        assert ItemsDraws(ks) == Ok(ItemsDraws(ks[..n]).value + EntryDraws(ks[n]).value);
        assert ItemsDraws(ks).value == [];
        assert forall k :: 0 <= k < |ks| ==> !Contains(ks[k].s, BoxKey);
      }
    }
  }

  /** The body of `for box in boxes:` for one entry, drawing on `canvas`. */
  method DrawEntry(canvas: Canvas, box: Json) returns (err: Option<Exception>)
    modifies canvas
    ensures err.None? <==> EntryDraws(box).Ok?
    ensures err.Some? ==> err.value == EntryDraws(box).error
    ensures err.None? ==> canvas.draws == old(canvas.draws) + EntryDraws(box).value
  {
    var present := In(BoxKey, box);
    if present.Err? {
      return Some(present.error);
    }
    if !present.value {
      return None;
    }
    var b := GetItem(box, BoxKey);
    if b.Err? {
      return Some(b.error);
    }
    var n := Len(b.value);
    if n.Err? {
      return Some(n.error);
    }
    if n.value != 4 {
      return None;
    }
    var corners := Corners(b.value);
    if corners.Err? {
      return Some(corners.error);
    }
    var (ymin, xmin, ymax, xmax) := corners.value;
    canvas.Rectangle(Point(xmin, ymin), Point(xmax, ymax), BoxColour, BoxThickness);
    var caption := GetItem(box, LabelKey);
    if caption.Err? {
      return Some(caption.error);
    }
    if !caption.value.JStr? {
      return Some(OpenCvError);
    }
    canvas.PutText(caption.value.s, Point(xmin, ymin - LabelLift), FontScale, TextColour, FontThickness);
    return None;
  }

  /** `for box in boxes:` over the entries `items`, stopping at the first
      exception. */
  method DrawEntries(canvas: Canvas, items: seq<Json>) returns (err: Option<Exception>)
    modifies canvas
    ensures err.None? <==> ItemsDraws(items).Ok?
    ensures err.Some? ==> err.value == ItemsDraws(items).error
    ensures err.None? ==> canvas.draws == old(canvas.draws) + ItemsDraws(items).value
  {
    var i := 0;
    while i < |items|
      invariant 0 <= i <= |items|
      invariant ItemsDraws(items[..i]).Ok?
      invariant canvas.draws == old(canvas.draws) + ItemsDraws(items[..i]).value
    {
      assert items[..i + 1][..i] == items[..i];
      err := DrawEntry(canvas, items[i]);
      if err.Some? {
        ItemsDrawsSticky(items, i + 1);
        return;
      }
      i := i + 1;
    }
    assert items[..i] == items;
    return None;
  }

  /** Once a prefix of the entries raises, every longer prefix raises the same. */
  lemma {:induction false} ItemsDrawsSticky(items: seq<Json>, i: nat)
    requires i <= |items|
    requires ItemsDraws(items[..i]).Err?
    ensures ItemsDraws(items) == ItemsDraws(items[..i])
    decreases |items| - i
  {
    if i < |items| {
      assert items[..i + 1][..i] == items[..i];
      ItemsDrawsSticky(items, i + 1);
    } else {
      assert items[..i] == items;
    }
  }

  /** `for box in boxes:` on a dict visits its keys in an order the model
      leaves open; this lists them in one such order. */
  method KeyOrder(m: map<string, Json>) returns (ks: seq<Json>)
    ensures forall k :: 0 <= k < |ks| ==> ks[k].JStr? && ks[k].s in m
    ensures forall key :: key in m ==> JStr(key) in ks
    ensures forall k, k' :: 0 <= k < k' < |ks| ==> ks[k] != ks[k']
    ensures |ks| == |m|
  {
    ks := [];
    var rest := m.Keys;
    while rest != {}
      invariant rest <= m.Keys
      invariant forall k :: 0 <= k < |ks| ==> ks[k].JStr? && ks[k].s in m && ks[k].s !in rest
      invariant forall key :: key in m ==> key in rest || JStr(key) in ks
      invariant forall k, k' :: 0 <= k < k' < |ks| ==> ks[k] != ks[k']
      invariant |ks| + |rest| == |m.Keys|
      decreases rest
    {
      var key :| key in rest;
      ks := ks + [JStr(key)];
      rest := rest - {key};
    }
  }

  /** The whole loop `for box in boxes:` on one turned frame. */
  method DrawBoxes(canvas: Canvas, boxes: Json) returns (err: Option<Exception>)
    modifies canvas
    ensures err.None? <==> FrameDraws(boxes).Ok?
    ensures err.Some? ==> err.value == FrameDraws(boxes).error
    ensures err.None? ==> canvas.draws == old(canvas.draws) + FrameDraws(boxes).value
  {
    match boxes {
      case JArr(items) =>
        err := DrawEntries(canvas, items);
      case JStr(s) =>
        var cs := Chars(s);
        StringEntriesDraws(cs);
        assert forall k :: 0 <= k < |cs| ==> !Contains(cs[k].s, BoxKey);
        err := DrawEntries(canvas, cs);
      case JObj(m) =>
        var ks := KeyOrder(m);
        StringEntriesDraws(ks);
        if exists key | key in m :: Contains(key, BoxKey) {
          var key :| key in m && Contains(key, BoxKey);
          var k :| 0 <= k < |ks| && ks[k] == JStr(key);
          assert Contains(ks[k].s, BoxKey);
        }
        err := DrawEntries(canvas, ks);
      case _ =>
        err := Some(TypeError);
    }
  }
}
