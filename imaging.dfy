/** The image normalisation `_to_pil`, modelled on the array's shape only: every
    axis length of the pixel buffer, in order. Pixel values, their float-to-byte
    scaling and PIL's own work (`Image.fromarray`, thumbnails, the JPEG bytes) are
    not part of this model; a converted picture records only its PIL mode and size.
    Of the JPEG writer, the pictures it refuses are modelled. */
module Imaging {
  import opened Wrappers
  import opened Text

  /** The PIL modes `_to_pil` can pick. */
  datatype Mode = L | RGB | RGBA

  /** A PIL image: its mode, its height and its width. */
  datatype Picture = Picture(mode: Mode, height: nat, width: nat)

  /** What a node receives: a PIL image already, or a tensor/array given by its shape. */
  datatype ImageInput = PilImage(picture: Picture) | PixelArray(shape: seq<nat>)

  /** The `TypeError`s `_to_pil` raises. */
  datatype ConversionError = UnsupportedChannels(channels: nat) | UnsupportedShape(shape: seq<nat>)

  /** `data:image/jpeg;base64,` followed by the base64 JPEG (quality 75) of the picture
      after `thumbnail((512, 512))`; the encoded bytes are PIL's and stay abstract. */
  datatype DataUrl = JpegDataUrl(picture: Picture)

  /** Why an input did not become a data URL: `_to_pil` rejected it, or the JPEG
      writer refused the picture (empty, or in a mode it cannot write). */
  datatype ImageFailure = NotConverted(reason: ConversionError) | NotEncoded(message: string)

  const DataUrlPrefix: string := "data:image/jpeg;base64,"

  /** The number of bands of a mode. */
  function Channels(m: Mode): (n: nat)
    ensures n in {1, 3, 4}
  {
    match m
    case L => 1
    case RGB => 3
    case RGBA => 4
  }

  function Product(shape: seq<nat>): (n: nat) {
    if shape == [] then 1 else shape[0] * Product(shape[1..])
  }

  /** `np.squeeze`: every axis of length 1 is removed, the others keep their order. */
  function Squeeze(shape: seq<nat>): (r: seq<nat>)
    ensures |r| <= |shape|
    ensures forall k :: 0 <= k < |r| ==> r[k] != 1
    ensures forall x :: x in r <==> x in shape && x != 1
  {
    if shape == [] then []
    else if shape[0] == 1 then Squeeze(shape[1..])
    else [shape[0]] + Squeeze(shape[1..])
  }

  /** Squeezing keeps the order of the axes it keeps: it works axis by axis. */
  lemma {:induction false} SqueezeAppend(a: seq<nat>, b: seq<nat>)
    ensures Squeeze(a + b) == Squeeze(a) + Squeeze(b)
  {
    if a == [] {
      assert a + b == b;
    } else {
      var ab := a + b;
      assert ab[0] == a[0] && ab[1..] == a[1..] + b;
      SqueezeAppend(a[1..], b);
      if a[0] == 1 {
        assert Squeeze(ab) == Squeeze(a[1..] + b);
      } else {
        assert Squeeze(ab) == [a[0]] + Squeeze(a[1..] + b);
        assert Squeeze(a) == [a[0]] + Squeeze(a[1..]);
      }
    }
  }

  /** A single axis is dropped exactly when its length is 1. */
  lemma SqueezeSingle(n: nat)
    ensures Squeeze([n]) == (if n == 1 then [] else [n])
  {
    assert [n][1..] == [];
  }

  /** Squeezing never changes how many values the buffer holds. */
  lemma {:induction false} SqueezeKeepsSize(shape: seq<nat>)
    ensures Product(Squeeze(shape)) == Product(shape)
  {
    if shape != [] {
      SqueezeKeepsSize(shape[1..]);
      if shape[0] != 1 {
        assert ([shape[0]] + Squeeze(shape[1..]))[1..] == Squeeze(shape[1..]);
      }
    }
  }

  /** The transpose decision of `_to_pil`: a rank-3 array whose first axis is 1, 3 or 4
      is read as channel-first. */
  predicate ChannelFirst(shape: seq<nat>) {
    |shape| == 3 && shape[0] in {1, 3, 4}
  }

  /** `np.transpose(arr, (1, 2, 0))` when the array is read as channel-first. */
  function ChannelLast(shape: seq<nat>): (r: seq<nat>)
    ensures ChannelFirst(shape) ==> r == [shape[1], shape[2], shape[0]]
    ensures !ChannelFirst(shape) ==> r == shape
  {
    if ChannelFirst(shape) then [shape[1], shape[2], shape[0]] else shape
  }

  /** `{1: "L", 3: "RGB", 4: "RGBA"}.get(ch)`: the mode with that many bands, if any. */
  function ModeFor(channels: nat): (r: Option<Mode>)
    ensures r.Some? <==> channels in {1, 3, 4}
    ensures r.Some? ==> Channels(r.value) == channels
  {
    if channels == 1 then Some(L)
    else if channels == 3 then Some(RGB)
    else if channels == 4 then Some(RGBA)
    else None
  }

  /** `_to_pil`: a PIL image passes through; an array is squeezed, transposed to
      channel-last when its first axis looks like channels, then given a mode by its
      rank and channel count, or rejected. */
  function ToPicture(img: ImageInput): (r: Result<Picture, ConversionError>)
    ensures img.PilImage? ==> r == Ok(img.picture)
  {
    match img
    case PilImage(p) => Ok(p)
    case PixelArray(shape) =>
      var arr := ChannelLast(Squeeze(shape));
      if |arr| == 3 then
        match ModeFor(arr[2])
        case Some(m) => Ok(Picture(m, arr[0], arr[1]))
        case None => Err(UnsupportedChannels(arr[2]))
      else if |arr| == 2 then Ok(Picture(L, arr[0], arr[1]))
      else Err(UnsupportedShape(arr))
  }

  /** Which arrays are accepted, as what, and how each rejection is reported: rank 2
      after squeezing is grey; rank 3 is accepted exactly when its first or last axis
      is 3 or 4 (a unit axis cannot survive the squeeze), a first axis of 3 or 4 being
      the channels and the other two height and width, and otherwise the last axis
      being the channels; any other rank is refused with its squeezed shape. */
  lemma ToPictureClassifies(shape: seq<nat>)
    ensures var q := Squeeze(shape); var r := ToPicture(PixelArray(shape));
      && (|q| == 2 ==> r == Ok(Picture(L, q[0], q[1])))
      && (|q| == 3 ==> (r.Ok? <==> q[0] in {3, 4} || q[2] in {3, 4}))
      && (|q| == 3 && q[0] in {3, 4} ==>
            r.Ok? && Channels(r.value.mode) == q[0] && r.value.height == q[1] && r.value.width == q[2])
      && (|q| == 3 && q[0] !in {3, 4} && r.Ok? ==>
            Channels(r.value.mode) == q[2] && r.value.height == q[0] && r.value.width == q[1])
      && (|q| == 3 && r.Err? ==> r.error == UnsupportedChannels(q[2]))
      && (|q| != 2 && |q| != 3 ==> r == Err(UnsupportedShape(q)))
  {
    var q := Squeeze(shape);
    if |q| == 3 {
      assert q[0] != 1 && q[2] != 1;
    }
  }

  /** A rank-3 array is transposed exactly when its squeezed first axis is 1, 3 or 4,
      whatever its other axes are; a rank-2 array never is. */
  lemma TransposeDependsOnFirstAxis(shape: seq<nat>, other: seq<nat>)
    requires |Squeeze(shape)| == 3 && |Squeeze(other)| == 3
    requires Squeeze(shape)[0] == Squeeze(other)[0]
    ensures ChannelFirst(Squeeze(shape)) <==> ChannelFirst(Squeeze(other))
    ensures ChannelFirst(Squeeze(shape)) <==> Squeeze(shape)[0] in {3, 4}
  {
  }

  lemma ProductOfTwo(s: seq<nat>)
    requires |s| == 2
    ensures Product(s) == s[0] * s[1]
  {
    assert s[1..][1..] == [];
    assert Product(s[1..]) == s[1] * Product(s[1..][1..]);
  }

  lemma ProductOfThree(s: seq<nat>)
    requires |s| == 3
    ensures Product(s) == s[0] * (s[1] * s[2])
  {
    ProductOfTwo(s[1..]);
  }

  /** A converted array yields a picture holding exactly the array's values:
      height times width times the mode's channels is the buffer's size. */
  lemma ToPictureKeepsSize(shape: seq<nat>)
    requires ToPicture(PixelArray(shape)).Ok?
    ensures var p := ToPicture(PixelArray(shape)).value;
      p.height * p.width * Channels(p.mode) == Product(shape)
  {
    var q := Squeeze(shape);
    SqueezeKeepsSize(shape);
    var arr := ChannelLast(q);
    var p := ToPicture(PixelArray(shape)).value;
    if |q| == 3 {
      ProductOfThree(q);
      var a, b, c := arr[0], arr[1], arr[2];
      assert p == Picture(ModeFor(c).value, a, b);
      assert Channels(p.mode) == c;
      if ChannelFirst(q) {
        assert q == [c, a, b];
        Rotate(a, b, c);
      } else {
        assert q == [a, b, c];
        Associate(a, b, c);
      }
    } else {
      ProductOfTwo(q);
      assert p == Picture(L, q[0], q[1]);
      assert Channels(p.mode) == 1;
    }
  }

  lemma Rotate(a: nat, b: nat, c: nat)
    ensures a * b * c == c * (a * b)
  {
  }

  lemma Associate(a: nat, b: nat, c: nat)
    ensures a * b * c == a * (b * c)
  {
  }

  /** The repr Python gives a shape tuple: `(5,)`, `(2, 3, 5, 6)`, `()`. */
  function ShapeText(shape: seq<nat>): (r: string)
    ensures shape == [] ==> r == "()"
    ensures |shape| == 1 ==> r == "(" + NatToString(shape[0]) + ",)"
    ensures |r| >= 2 && r[0] == '(' && r[|r| - 1] == ')'
  {
    "(" + JoinedAxes(shape) + (if |shape| == 1 then "," else "") + ")"
  }

  /** The axis lengths in decimal, separated by ", ". */
  function JoinedAxes(shape: seq<nat>): (r: string)
    ensures shape != [] ==> |r| > 0 && IsDigit(r[|r| - 1])
  {
    if shape == [] then ""
    else if |shape| == 1 then NatToString(shape[0])
    else NatToString(shape[0]) + ", " + JoinedAxes(shape[1..])
  }

  /** How Python writes an empty shape and a one-axis shape. */
  lemma ShapeTextExamples()
    ensures ShapeText([]) == "()"
    ensures ShapeText([5]) == "(5,)"
  {
    assert NatToString(5) == "5";
  }

  /** How Python writes a shape of several axes. */
  lemma ShapeTextTwoAxes()
    ensures ShapeText([2, 3]) == "(2, 3)"
  {
    assert NatToString(2) == "2" && NatToString(3) == "3";
    assert [2, 3][1..] == [3];
    assert JoinedAxes([2, 3]) == "2, 3";
  }

  /** Two strings of digits, each followed by ", " and some text, agree in their digits
      and in the rest. */
  lemma DigitsBeforeComma(d1: string, r1: string, d2: string, r2: string)
    requires forall k :: 0 <= k < |d1| ==> IsDigit(d1[k])
    requires forall k :: 0 <= k < |d2| ==> IsDigit(d2[k])
    requires d1 + ", " + r1 == d2 + ", " + r2
    ensures d1 == d2 && r1 == r2
  {
    var x := d1 + ", " + r1;
    assert x[|d1|] == ',' && x[|d2|] == ',' && !IsDigit(',');
    assert forall k :: 0 <= k < |d1| ==> x[k] == d1[k];
    assert forall k :: 0 <= k < |d2| ==> x[k] == d2[k];
    assert |d1| == |d2|;
    assert d1 == x[..|d1|] == d2;
    assert r1 == x[|d1| + 2..] == r2;
  }

  /** A string of digits is never digits followed by ", ". */
  lemma DigitsNoComma(d1: string, d2: string, r2: string)
    requires forall k :: 0 <= k < |d1| ==> IsDigit(d1[k])
    ensures d1 != d2 + ", " + r2
  {
    var x := d2 + ", " + r2;
    assert x[|d2|] == ',' && !IsDigit(',');
  }

  /** The rendered digits determine the number. */
  lemma NatToStringInjective(m: nat, n: nat)
    requires NatToString(m) == NatToString(n)
    ensures m == n
  {
    NatToStringRoundTrip(m);
    NatToStringRoundTrip(n);
  }

  /** Different shapes are joined into different texts. */
  lemma {:induction false} JoinedAxesInjective(a: seq<nat>, b: seq<nat>)
    requires JoinedAxes(a) == JoinedAxes(b)
    ensures a == b
  {
    if a == [] || b == [] {
      assert |JoinedAxes(a)| == 0 || |JoinedAxes(b)| == 0;
    } else if |a| == 1 && |b| == 1 {
      NatToStringInjective(a[0], b[0]);
    } else if |a| == 1 {
      DigitsNoComma(NatToString(a[0]), NatToString(b[0]), JoinedAxes(b[1..]));
    } else if |b| == 1 {
      DigitsNoComma(NatToString(b[0]), NatToString(a[0]), JoinedAxes(a[1..]));
    } else {
      DigitsBeforeComma(NatToString(a[0]), JoinedAxes(a[1..]), NatToString(b[0]), JoinedAxes(b[1..]));
      NatToStringInjective(a[0], b[0]);
      JoinedAxesInjective(a[1..], b[1..]);
      assert a == [a[0]] + a[1..] && b == [b[0]] + b[1..];
    }
  }

  /** Only a one-element tuple has a comma just before its closing parenthesis. */
  lemma OneTupleMark(a: seq<nat>)
    ensures var t := ShapeText(a); |t| >= 2 && (t[|t| - 2] == ',' <==> |a| == 1)
  {
    var t := ShapeText(a);
    if |a| != 1 {
      var j := JoinedAxes(a);
      assert t == "(" + j + ")";
      assert t[|t| - 2] == if j == [] then '(' else j[|j| - 1];
    }
  }

  /** Different shapes are reported differently: the tuple text names the shape. */
  lemma ShapeTextInjective(a: seq<nat>, b: seq<nat>)
    requires ShapeText(a) == ShapeText(b)
    ensures a == b
  {
    var t := ShapeText(a);
    var ja, jb := JoinedAxes(a), JoinedAxes(b);
    OneTupleMark(a);
    OneTupleMark(b);
    if |a| == 1 {
      assert NatToString(a[0]) == t[1..|t| - 2] == NatToString(b[0]);
      NatToStringInjective(a[0], b[0]);
    } else {
      assert t == "(" + ja + ")" && t == "(" + jb + ")";
      assert ja == t[1..|t| - 1] == jb;
      JoinedAxesInjective(a, b);
    }
  }

  /** `str(e)` of the `TypeError` raised by `_to_pil`. */
  function ConversionMessage(e: ConversionError): (r: string)
    ensures e.UnsupportedChannels? ==> |r| > 22 && r[..22] == "Unsupported channels: "
    ensures e.UnsupportedShape? ==> |r| > 21 && r[..21] == "Cannot handle shape: "
  {
    match e
    case UnsupportedChannels(ch) => "Unsupported channels: " + NatToString(ch)
    case UnsupportedShape(shape) => "Cannot handle shape: " + ShapeText(shape)
  }

  /** The message names the error: different errors give different messages. */
  lemma ConversionMessageInjective(e1: ConversionError, e2: ConversionError)
    requires ConversionMessage(e1) == ConversionMessage(e2)
    ensures e1 == e2
  {
    var m := ConversionMessage(e1);
    assert m[0] == (if e1.UnsupportedChannels? then 'U' else 'C');
    assert m[0] == (if e2.UnsupportedChannels? then 'U' else 'C');
    if e1.UnsupportedChannels? {
      assert NatToString(e1.channels) == m[22..] == NatToString(e2.channels);
      NatToStringInjective(e1.channels, e2.channels);
    } else {
      assert ShapeText(e1.shape) == m[21..] == ShapeText(e2.shape);
      ShapeTextInjective(e1.shape, e2.shape);
    }
  }

  const EmptyRefusal: string := "cannot write empty image as JPEG"
  const JpegRefusal: string := "cannot write mode RGBA as JPEG"

  /** What PIL's JPEG writer accepts: a picture with at least one row and one column,
      in a mode with a JPEG raw mode (grey or RGB). */
  predicate Encodable(p: Picture) {
    p.height > 0 && p.width > 0 && p.mode != RGBA
  }

  /** `pil.save(buf, format="JPEG", quality=75)` and the base64 text around it. PIL's
      JPEG writer first refuses an empty picture (`ValueError` with `EmptyRefusal`),
      then a mode it has no raw mode for (`OSError` with `JpegRefusal`). */
  function EncodeJpeg(p: Picture): (r: Result<DataUrl, string>)
    ensures r.Ok? <==> Encodable(p)
    ensures r.Ok? ==> r.value.picture == p
    ensures r.Err? && (p.height == 0 || p.width == 0) ==> r.error == EmptyRefusal
    ensures r.Err? && p.height > 0 && p.width > 0 ==> r.error == JpegRefusal
  {
    if p.height == 0 || p.width == 0 then Err(EmptyRefusal)
    else if p.mode == RGBA then Err(JpegRefusal)
    else Ok(JpegDataUrl(p))
  }

  /** Conversion then encoding of an optional image, as the vision and preset nodes do
      it: no image gives no URL; `_to_pil`'s error is reported as such; a picture the
      JPEG writer refuses is a failure of its own kind. */
  function UrlFor(img: Option<ImageInput>): (r: Result<Option<DataUrl>, ImageFailure>)
    ensures img.None? ==> r == Ok(None)
    ensures img.Some? && ToPicture(img.value).Err? ==> r == Err(NotConverted(ToPicture(img.value).error))
    ensures img.Some? && ToPicture(img.value).Ok? ==> (r.Ok? <==> Encodable(ToPicture(img.value).value))
    ensures img.Some? && r.Ok? ==> r.value.Some? && r.value.value.picture == ToPicture(img.value).value
    ensures img.Some? && ToPicture(img.value).Ok? && r.Err? ==>
      r == Err(NotEncoded(EncodeJpeg(ToPicture(img.value).value).error))
    ensures r.Err? && r.error.NotEncoded? ==> r.error.message in {EmptyRefusal, JpegRefusal}
  {
    match img
    case None => Ok(None)
    case Some(i) =>
      match ToPicture(i)
      case Err(e) => Err(NotConverted(e))
      case Ok(p) =>
        match EncodeJpeg(p)
        case Ok(u) => Ok(Some(u))
        case Err(m) => Err(NotEncoded(m))
  }

  /** Which arrays reach the server: a converted array is refused by the JPEG writer
      exactly when its channel axis holds 4 values or its height or width is 0. */
  lemma ArrayEncodable(shape: seq<nat>)
    requires ToPicture(PixelArray(shape)).Ok?
    ensures var q := Squeeze(shape);
      UrlFor(Some(PixelArray(shape))).Err? <==>
        || (|q| == 2 && (q[0] == 0 || q[1] == 0))
        || (|q| == 3 && q[0] in {3, 4} && (q[0] == 4 || q[1] == 0 || q[2] == 0))
        || (|q| == 3 && q[0] !in {3, 4} && (q[2] == 4 || q[0] == 0 || q[1] == 0))
  {
    ToPictureClassifies(shape);
  }

  /** A `(0, 64)` array becomes an empty grey picture, which the JPEG writer refuses;
      a `(3, 2, 5)` array becomes a 2 × 5 RGB picture, which it writes. */
  lemma EncodingExamples()
    ensures UrlFor(Some(PixelArray([0, 64]))) == Err(NotEncoded(EmptyRefusal))
    ensures UrlFor(Some(PixelArray([3, 2, 5]))) == Ok(Some(JpegDataUrl(Picture(RGB, 2, 5))))
  {
    assert Squeeze([0, 64]) == [0, 64];
    assert Squeeze([3, 2, 5]) == [3, 2, 5];
  }
}
