/**
 * Day 8 (src/eight.rs): a space image arrives as a stream of digit bytes,
 * cut into layers of `width * height` pixels.  Part one picks the layer
 * with the fewest '0' pixels and multiplies its counts of '1' and '2';
 * part two stacks the layers, the first non-transparent ('2') pixel from
 * the front showing through.
 *
 * The stream is the sequence of bytes it holds; `Read::read_exact` on it
 * is `ReadExact`, which copies the next layer into a buffer or fails once
 * fewer bytes remain than the buffer holds.
 */
module Eight {
  import opened Wrappers

  newtype byte = x: int | 0 <= x < 256

  /** The ASCII digits the image is made of. */
  const Black: byte := 48
  const White: byte := 49
  const Transparent: byte := 50

  /** `usize::max_value()` on a 64-bit target. */
  const UsizeMax: nat := 0x1_0000_0000_0000_0000 - 1

  // ---------------------------------------------------------------------
  // `count_byte` (eight.rs:3-5)
  // ---------------------------------------------------------------------

  /** The number of positions of `v` that hold `b`. */
  function CountByte(v: seq<byte>, b: byte): (c: nat)
    ensures c <= |v|
  {
    if v == [] then 0 else CountByte(v[..|v| - 1], b) + (if v[|v| - 1] == b then 1 else 0)
  }

  /** `count_byte` is the multiplicity of `b` in `v` ... */
  lemma {:induction false} CountByteMultiset(v: seq<byte>, b: byte)
    ensures CountByte(v, b) == multiset(v)[b]
  {
    if v != [] {
      CountByteMultiset(v[..|v| - 1], b);
      assert v == v[..|v| - 1] + [v[|v| - 1]];
    }
  }

  /** ... so it is zero exactly when `b` does not occur. */
  lemma CountByteZero(v: seq<byte>, b: byte)
    ensures CountByte(v, b) == 0 <==> b !in v
  {
    CountByteMultiset(v, b);
  }

  // ---------------------------------------------------------------------
  // The stream and its layers
  // ---------------------------------------------------------------------

  /** The complete layers of `size` bytes at the front of `buf`, in order;
      a trailing partial layer (such as the final newline) is dropped. */
  function Layers(buf: seq<byte>, size: nat): (ls: seq<seq<byte>>)
    requires size > 0
    ensures forall k :: 0 <= k < |ls| ==> |ls[k]| == size
    decreases |buf|
  {
    if |buf| < size then [] else [buf[..size]] + Layers(buf[size..], size)
  }

  /** Each layer is the next `size` bytes of the stream. */
  lemma {:induction false} LayersAt(buf: seq<byte>, size: nat, k: nat)
    requires size > 0 && (k + 1) * size <= |buf|
    ensures k < |Layers(buf, size)| && Layers(buf, size)[k] == buf[k * size..(k + 1) * size]
    decreases k
  {
    assert (k + 1) * size == k * size + size;
    if k > 0 {
      assert k * size == (k - 1) * size + size;
      LayersAt(buf[size..], size, k - 1);
      assert buf[size..][(k - 1) * size..k * size] == buf[k * size..(k + 1) * size];
    }
  }

  /** `read_exact` into `dst` from position `pos`: the next `dst.Length`
      bytes, or a failure (which consumes the rest of the stream) when
      fewer remain. */
  method ReadExact(buf: seq<byte>, pos: nat, dst: array<byte>) returns (ok: bool, next: nat)
    requires pos <= |buf|
    modifies dst
    ensures ok <==> dst.Length <= |buf| - pos
    ensures ok ==> next == pos + dst.Length && dst[..] == buf[pos..next]
    ensures !ok ==> next == |buf| && dst[..] == old(dst[..])
  {
    if dst.Length > |buf| - pos {
      return false, |buf|;
    }
    forall i | 0 <= i < dst.Length {
      dst[i] := buf[pos + i];
    }
    return true, pos + dst.Length;
  }

  /** A successful read takes the next layer off the stream ... */
  lemma LayersRead(buf: seq<byte>, size: nat, pos: nat)
    requires size > 0 && pos + size <= |buf|
    ensures Layers(buf[pos..], size) == [buf[pos..pos + size]] + Layers(buf[pos + size..], size)
  {
    assert buf[pos..][..size] == buf[pos..pos + size];
    assert buf[pos..][size..] == buf[pos + size..];
  }

  /** ... and a failed one leaves no layer behind. */
  lemma LayersExhausted(buf: seq<byte>, size: nat, pos: nat)
    requires size > 0 && pos <= |buf| && |buf| - pos < size
    ensures Layers(buf[pos..], size) == []
  {
  }

  // ---------------------------------------------------------------------
  // `image_check` (eight.rs:7-33)
  // ---------------------------------------------------------------------

  function Zeros(layer: seq<byte>): nat
  {
    CountByte(layer, Black)
  }

  /** The index of the first layer with the fewest '0' pixels. */
  function Fewest(layers: seq<seq<byte>>): (k: Option<nat>)
    ensures k.None? <==> layers == []
    ensures k.Some? ==> k.value < |layers|
    ensures k.Some? ==> forall j :: 0 <= j < |layers| ==> Zeros(layers[k.value]) <= Zeros(layers[j])
    ensures k.Some? ==> forall j :: 0 <= j < k.value ==> Zeros(layers[j]) > Zeros(layers[k.value])
  {
    if layers == [] then None
    else
      var front := layers[..|layers| - 1];
      var f := Fewest(front);
      if f.None? || Zeros(layers[|layers| - 1]) < Zeros(front[f.value]) then Some(|layers| - 1) else f
  }

  /** The product `image_check` returns for a chosen layer. */
  function Checksum(layer: seq<byte>): nat
  {
    CountByte(layer, White) * CountByte(layer, Transparent)
  }

  /** What `image_check` answers for these layers: the checksum of the
      first layer with fewest zeros, or 0 when there is no complete layer
      (the all-zero initial buffer holds no '1' and no '2'). */
  function ImageChecksum(layers: seq<seq<byte>>): nat
  {
    match Fewest(layers)
    case None => 0
    case Some(k) => Checksum(layers[k])
  }

  /** The all-zero buffer `image_check` starts from. */
  function Blank(size: nat): (r: seq<byte>)
    ensures |r| == size && forall i :: 0 <= i < size ==> r[i] == 0
  {
    seq(size, _ => 0)
  }

  /** The state between iterations of `image_check`'s loop, after the
      layers `seen`. */
  predicate Best(seen: seq<seq<byte>>, size: nat, best: seq<byte>, bestZeros: nat)
  {
    if seen == [] then best == Blank(size) && bestZeros == UsizeMax
    else Fewest(seen).Some? && best == seen[Fewest(seen).value] && bestZeros == Zeros(best)
  }

  /** `image_check`; a zero-sized layer makes `read_exact` succeed forever. */
  method ImageCheck(buf: seq<byte>, width: nat, height: nat) returns (r: nat)
    requires 0 < width * height < UsizeMax
    ensures r == ImageChecksum(Layers(buf, width * height))
  {
    var size := width * height;
    var layer := new byte[size](_ => 0);
    var bestLayer := Blank(size);
    assert buf[0..] == buf;
    var bestZeros: nat := UsizeMax;
    var pos: nat := 0;
    ghost var seen: seq<seq<byte>> := [];
    while true
      invariant layer.Length == size
      invariant Checking(buf, size, seen, pos, bestLayer, bestZeros)
      decreases |buf| - pos
    {
      var ok, next := ReadExact(buf, pos, layer);
      if !ok {
        LayersExhausted(buf, size, pos);
        break;
      }
      seen, bestLayer, bestZeros := CheckNext(buf, size, seen, pos, layer[..], bestLayer, bestZeros);
      pos := next;
    }
    CheckFinished(buf, size, seen, pos, bestLayer, bestZeros);
    r := Checksum(bestLayer);
  }

  /** The state between iterations of `image_check`'s loop: the layers
      `seen` read so far are the stream's first layers, and the best one
      among them is kept. */
  ghost predicate Checking(buf: seq<byte>, size: nat, seen: seq<seq<byte>>, pos: nat, best: seq<byte>, bestZeros: nat)
  {
    0 < size && pos <= |buf| && Layers(buf, size) == seen + Layers(buf[pos..], size)
    && (forall k :: 0 <= k < |seen| ==> |seen[k]| == size)
    && Best(seen, size, best, bestZeros)
  }

  /** Taking the layer just read keeps that state. */
  method CheckNext(buf: seq<byte>, size: nat, ghost seen: seq<seq<byte>>, pos: nat, layer: seq<byte>, best: seq<byte>, bestZeros: nat)
    returns (ghost seen': seq<seq<byte>>, best': seq<byte>, bestZeros': nat)
    requires 0 < size < UsizeMax && pos + size <= |buf| && layer == buf[pos..pos + size]
    requires Checking(buf, size, seen, pos, best, bestZeros)
    ensures Checking(buf, size, seen', pos + size, best', bestZeros')
  {
    LayersRead(buf, size, pos);
    best', bestZeros' := Consider(seen, size, layer, best, bestZeros);
    seen' := seen + [layer];
    assert seen + ([layer] + Layers(buf[pos + size..], size)) == seen' + Layers(buf[pos + size..], size);
  }

  /** At the end of the stream the layer kept is the one `image_check`
      answers for. */
  lemma CheckFinished(buf: seq<byte>, size: nat, seen: seq<seq<byte>>, pos: nat, best: seq<byte>, bestZeros: nat)
    requires 0 < size && |buf| - pos < size
    requires Checking(buf, size, seen, pos, best, bestZeros)
    ensures Checksum(best) == ImageChecksum(Layers(buf, size))
  {
    LayersExhausted(buf, size, pos);
    assert seen == Layers(buf, size);
    if seen == [] {
      CountByteZero(best, White);
    }
  }

  /** One iteration of `image_check`'s loop: keep `layer` when it has
      strictly fewer zeros than the best so far. */
  method Consider(ghost seen: seq<seq<byte>>, size: nat, layer: seq<byte>, best: seq<byte>, bestZeros: nat)
    returns (best': seq<byte>, bestZeros': nat)
    requires 0 < size < UsizeMax && |layer| == size && (forall k :: 0 <= k < |seen| ==> |seen[k]| == size)
    requires Best(seen, size, best, bestZeros)
    ensures Best(seen + [layer], size, best', bestZeros')
  {
    var all := seen + [layer];
    assert all[..|all| - 1] == seen;
    var zeroCount := CountByte(layer, Black);
    if zeroCount < bestZeros {
      best', bestZeros' := layer, zeroCount;
    } else {
      best', bestZeros' := best, bestZeros;
    }
  }

  // ---------------------------------------------------------------------
  // `render_image` (eight.rs:35-62)
  // ---------------------------------------------------------------------

  /** `layer` seen behind `image`: every still transparent pixel of
      `image` takes the layer's pixel. */
  function Over(image: seq<byte>, layer: seq<byte>): (r: seq<byte>)
    requires |layer| == |image|
    ensures |r| == |image|
  {
    seq(|image|, i requires 0 <= i < |image| => if image[i] == Transparent then layer[i] else image[i])
  }

  /** The layers stacked front to back onto an all-transparent image. */
  function Composite(layers: seq<seq<byte>>, size: nat): (r: seq<byte>)
    requires forall k :: 0 <= k < |layers| ==> |layers[k]| == size
    ensures |r| == size
  {
    if layers == [] then seq(size, _ => Transparent)
    else Over(Composite(layers[..|layers| - 1], size), layers[|layers| - 1])
  }

  /** The image `render_image` gives for the stream: always `size` pixels
      (none at all when a layer is empty). */
  function Render(buf: seq<byte>, size: nat): (r: seq<byte>)
    ensures |r| == size
  {
    if size == 0 then [] else Composite(Layers(buf, size), size)
  }

  /** The reference reading of a pixel: the first layer whose pixel is not
      transparent decides it; transparent when none is. */
  function FirstOpaque(layers: seq<seq<byte>>, i: nat): byte
    requires forall k :: 0 <= k < |layers| ==> i < |layers[k]|
  {
    if layers == [] then Transparent
    else if layers[0][i] != Transparent then layers[0][i]
    else FirstOpaque(layers[1..], i)
  }

  /** Looking at one more layer at the back changes a pixel only when all
      layers in front are transparent there. */
  lemma {:induction false} FirstOpaqueSnoc(layers: seq<seq<byte>>, last: seq<byte>, i: nat)
    requires forall k :: 0 <= k < |layers| ==> i < |layers[k]|
    requires i < |last|
    ensures FirstOpaque(layers + [last], i)
         == if FirstOpaque(layers, i) == Transparent then last[i] else FirstOpaque(layers, i)
  {
    if layers != [] {
      assert (layers + [last])[1..] == layers[1..] + [last];
      FirstOpaqueSnoc(layers[1..], last, i);
    }
  }

  /** Each pixel of the stacked image is the first non-transparent pixel
      of the layers, front to back (later layers never override it). */
  lemma {:induction false} CompositePixel(layers: seq<seq<byte>>, size: nat, i: nat)
    requires forall k :: 0 <= k < |layers| ==> |layers[k]| == size
    requires i < size
    ensures Composite(layers, size)[i] == FirstOpaque(layers, i)
  {
    if layers != [] {
      var front := layers[..|layers| - 1];
      CompositePixel(front, size, i);
      assert layers == front + [layers[|layers| - 1]];
      FirstOpaqueSnoc(front, layers[|layers| - 1], i);
    }
  }

  /** With no transparent pixel left, further layers change nothing: the
      reason `render_image` may stop early. */
  lemma {:induction false} CompositeSaturated(seen: seq<seq<byte>>, rest: seq<seq<byte>>, size: nat)
    requires forall k :: 0 <= k < |seen| ==> |seen[k]| == size
    requires forall k :: 0 <= k < |rest| ==> |rest[k]| == size
    requires Transparent !in Composite(seen, size)
    ensures Composite(seen + rest, size) == Composite(seen, size)
    decreases |rest|
  {
    if rest == [] {
      assert seen + rest == seen;
    } else {
      var front := rest[..|rest| - 1];
      assert (seen + rest)[..|seen + rest| - 1] == seen + front;
      CompositeSaturated(seen, front, size);
      var c := Composite(seen, size);
      assert (seen + rest)[|seen + rest| - 1] == rest[|rest| - 1];
      assert forall i :: 0 <= i < |c| ==> c[i] != Transparent;
      assert Over(c, rest[|rest| - 1]) == c;
      assert Composite(seen + rest, size) == Over(Composite(seen + front, size), rest[|rest| - 1]);
    }
  }

  /** Stack `layer` behind `image` in place: the `for` loop over the
      layer's pixels. */
  method Overlay(image: array<byte>, layer: array<byte>)
    requires image != layer && image.Length == layer.Length
    modifies image
    ensures image[..] == Over(old(image[..]), layer[..])
  {
    for i := 0 to image.Length
      invariant forall j :: 0 <= j < i ==>
        image[j] == if old(image[j]) == Transparent then layer[j] else old(image[j])
      invariant forall j :: i <= j < image.Length ==> image[j] == old(image[j])
    {
      if image[i] == Transparent {
        image[i] := layer[i];
      }
    }
  }

  /** `render_image`'s loop may end at the end of the stream or as soon as
      no pixel is transparent: either way the image is the full stack. */
  lemma RenderFinished(buf: seq<byte>, size: nat, seen: seq<seq<byte>>, pos: nat)
    requires size > 0 && pos <= |buf| && Layers(buf, size) == seen + Layers(buf[pos..], size)
    requires forall k :: 0 <= k < |seen| ==> |seen[k]| == size
    requires |buf| - pos < size || Transparent !in Composite(seen, size)
    ensures Render(buf, size) == Composite(seen, size)
  {
    if |buf| - pos < size {
      LayersExhausted(buf, size, pos);
      assert seen + [] == seen;
    } else {
      CompositeSaturated(seen, Layers(buf[pos..], size), size);
    }
  }

  /** The state between iterations of `render_image`'s loop: the image is
      the stack of the layers `seen` read so far, which are the stream's
      first layers. */
  ghost predicate Rendering(buf: seq<byte>, size: nat, seen: seq<seq<byte>>, pos: nat, image: seq<byte>)
  {
    pos <= |buf| && (forall k :: 0 <= k < |seen| ==> |seen[k]| == size)
    && (size > 0 ==> Layers(buf, size) == seen + Layers(buf[pos..], size))
    && image == Composite(seen, size)
  }

  /** Reading the next layer and stacking it keeps that state. */
  lemma RenderAdvance(buf: seq<byte>, size: nat, seen: seq<seq<byte>>, pos: nat, image: seq<byte>, layer: seq<byte>)
    requires Rendering(buf, size, seen, pos, image)
    requires pos + size <= |buf| && layer == buf[pos..pos + size]
    ensures Rendering(buf, size, seen + [layer], pos + size, Over(image, layer))
  {
    if size > 0 {
      LayersRead(buf, size, pos);
    }
    assert (seen + [layer])[..|seen|] == seen;
  }

  /** `render_image` (without `eight_b`'s printing). */
  method RenderImage(buf: seq<byte>, width: nat, height: nat) returns (image: seq<byte>)
    ensures image == Render(buf, width * height)
  {
    var size := width * height;
    var layerBuf := new byte[size](_ => 0);
    var finalImage := new byte[size](_ => Transparent);
    var pos: nat := 0;
    ghost var seen: seq<seq<byte>> := [];
    while true
      invariant layerBuf.Length == size && finalImage.Length == size
      invariant Rendering(buf, size, seen, pos, finalImage[..])
      decreases |buf| - pos
    {
      var ok, next, seen' := StackNext(buf, size, seen, pos, layerBuf, finalImage);
      if !ok {
        RenderFinished(buf, size, seen, pos);
        break;
      }
      pos, seen := next, seen';
      if CountByte(finalImage[..], Transparent) == 0 {
        CountByteZero(finalImage[..], Transparent);
        if size > 0 {
          RenderFinished(buf, size, seen, pos);
        }
        break;
      }
    }
    image := finalImage[..];
  }

  /** One iteration of `render_image`'s loop: read the next layer and, if
      there is one, stack it behind the image. */
  method StackNext(buf: seq<byte>, size: nat, ghost seen: seq<seq<byte>>, pos: nat, layerBuf: array<byte>, image: array<byte>)
    returns (ok: bool, next: nat, ghost seen': seq<seq<byte>>)
    requires layerBuf != image && layerBuf.Length == size && image.Length == size
    requires Rendering(buf, size, seen, pos, image[..])
    modifies layerBuf, image
    ensures ok <==> size <= |buf| - pos
    ensures !ok ==> image[..] == old(image[..])
    ensures ok ==> next == pos + size && Rendering(buf, size, seen', next, image[..])
  {
    ok, next := ReadExact(buf, pos, layerBuf);
    seen' := seen;
    if ok {
      RenderAdvance(buf, size, seen, pos, image[..], layerBuf[..]);
      Overlay(image, layerBuf);
      seen' := seen + [layerBuf[..]];
    }
  }

  // ---------------------------------------------------------------------
  // The examples of `test_eight_a` and `test_eight_b` (eight.rs:97-110)
  // ---------------------------------------------------------------------

  /** "123456789012\n" at 3 by 2: the first layer has no '0', one '1' and
      one '2', the second one '0'. */
  lemma CheckExample(buf: seq<byte>)
    requires buf == [49, 50, 51, 52, 53, 54, 55, 56, 57, 48, 49, 50, 10]
    ensures ImageChecksum(Layers(buf, 3 * 2)) == 1
  {
    var l0, l1 := buf[..6], buf[6..12];
    LayersRead(buf, 6, 0);
    LayersRead(buf, 6, 6);
    assert buf[0..] == buf;
    assert Layers(buf, 6) == [l0, l1];
    FirstLayerCounts(l0);
    SecondLayerCounts(l1);
    assert [l0, l1][..1] == [l0];
  }

  lemma FirstLayerCounts(l: seq<byte>)
    requires l == [49, 50, 51, 52, 53, 54]
    ensures Zeros(l) == 0 && Checksum(l) == 1
  {
    CountByteMultiset(l, Black);
    CountByteMultiset(l, White);
    CountByteMultiset(l, Transparent);
  }

  lemma SecondLayerCounts(l: seq<byte>)
    requires l == [55, 56, 57, 48, 49, 50]
    ensures Zeros(l) == 1
  {
    CountByteMultiset(l, Black);
  }

  /** "0222112222120000\n" at 2 by 2 renders as "0110". */
  lemma RenderExample(buf: seq<byte>)
    requires buf == [48, 50, 50, 50, 49, 49, 50, 50, 50, 50, 49, 50, 48, 48, 48, 48, 10]
    ensures Render(buf, 2 * 2) == [48, 49, 49, 48]
  {
    var l0: seq<byte>, l1: seq<byte> := [48, 50, 50, 50], [49, 49, 50, 50];
    var l2: seq<byte>, l3: seq<byte> := [50, 50, 49, 50], [48, 48, 48, 48];
    var tail: seq<byte> := [10];
    assert buf == l0 + (l1 + (l2 + (l3 + tail)));
    LayersFront(l3, tail, 4);
    LayersFront(l2, l3 + tail, 4);
    LayersFront(l1, l2 + (l3 + tail), 4);
    LayersFront(l0, l1 + (l2 + (l3 + tail)), 4);
    assert Layers(tail, 4) == [];
    assert Layers(buf, 4) == [l0, l1, l2, l3];
    ExampleStack([l0, l1, l2, l3]);
  }

  /** A stream that starts with a full layer. */
  lemma LayersFront(layer: seq<byte>, rest: seq<byte>, size: nat)
    requires size > 0 && |layer| == size
    ensures Layers(layer + rest, size) == [layer] + Layers(rest, size)
  {
    assert (layer + rest)[..size] == layer;
    assert (layer + rest)[size..] == rest;
  }

  /** The four layers "0222", "1122", "2212" and "0000" stacked. */
  lemma ExampleStack(ls: seq<seq<byte>>)
    requires ls == [[48, 50, 50, 50], [49, 49, 50, 50], [50, 50, 49, 50], [48, 48, 48, 48]]
    ensures Composite(ls, 4) == [48, 49, 49, 48]
  {
    var c := Composite(ls, 4);
    assert ls[1..] == [ls[1], ls[2], ls[3]] && ls[1..][1..] == [ls[2], ls[3]] && ls[1..][1..][1..] == [ls[3]];
    CompositePixel(ls, 4, 0);
    CompositePixel(ls, 4, 1);
    CompositePixel(ls, 4, 2);
    CompositePixel(ls, 4, 3);
    assert FirstOpaque([ls[2], ls[3]], 2) == 49 && FirstOpaque(ls[1..], 2) == 49;
    assert FirstOpaque([ls[3]], 3) == 48 && FirstOpaque([ls[2], ls[3]], 3) == 48 && FirstOpaque(ls[1..], 3) == 48;
    assert c[0] == 48 && c[1] == 49 && c[2] == 49 && c[3] == 48;
  }
}
