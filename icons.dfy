/** The icon codec (src/icons.rs): the `_NET_WM_ICON` record parser, best-size
    selection, the reduction of ARGB pixels to one bit, nearest-neighbour
    rescaling and the generic fallback icon. */
module Icons {
  import opened Base
  import opened XServer

  /** A 1-bit icon in row-major order: `data[y * width + x]`, true = black. */
  datatype BwIcon = BwIcon(width: u16, height: u16, data: seq<bool>)

  /** One `[width, height, width*height pixels]` record of the icon property. */
  datatype IconRecord = IconRecord(width: u32, height: u32, pixels: seq<u32>)

  // ---------------------------------------------------------------------
  // Nearest-neighbour rescaling

  /** `scale` needs `target_size * target_size` to fit in a u16. */
  predicate ScalableTo(t: u16) { t < 256 }

  /** The source pixel sampled for destination pixel (x, y): the one at
      (x*w/t, y*h/t), or white when that index lies outside `data`. */
  function Sample(icon: BwIcon, t: u16, x: nat, y: nat): bool
    requires t > 0
  {
    var srcX: int := x * (icon.width as int) / (t as int);
    var srcY: int := y * (icon.height as int) / (t as int);
    var idx: int := srcY * (icon.width as int) + srcX;
    if 0 <= idx < |icon.data| then icon.data[idx] else false
  }

  /** The destination pixel stored at row-major index k. */
  function SampleAt(icon: BwIcon, t: u16, k: nat): bool
    requires t > 0
  {
    Sample(icon, t, k % t, k / t)
  }

  /** The icon `scale(t)` returns. */
  function Scaled(icon: BwIcon, t: u16): (r: BwIcon)
    requires ScalableTo(t)
    ensures r.width == t && r.height == t && |r.data| == t * t
  {
    BwIcon(t, t, seq(t * t, k requires 0 <= k < t * t => SampleAt(icon, t, k)))
  }

  /** Every destination pixel is the sampled source pixel. */
  lemma ScaledPixel(icon: BwIcon, t: u16, x: nat, y: nat)
    requires ScalableTo(t) && x < t && y < t
    ensures y * t + x < t * t
    ensures Scaled(icon, t).data[y * t + x] == Sample(icon, t, x, y)
  {
    RowMajor(x, y, t);
    IndexInGrid(x, y, t, t);
  }

  /** `BwIcon::scale`: nested loops pushing one sampled pixel at a time. */
  method Scale(icon: BwIcon, t: u16) returns (r: BwIcon)
    requires ScalableTo(t)
    ensures r == Scaled(icon, t)
  {
    var scaled: seq<bool> := [];
    var y := 0;
    while y < t
      invariant 0 <= y <= t
      invariant |scaled| == y * t
      invariant forall k :: 0 <= k < |scaled| ==> scaled[k] == SampleAt(icon, t, k)
    {
      var x := 0;
      while x < t
        invariant 0 <= x <= t
        invariant |scaled| == y * t + x
        invariant forall k :: 0 <= k < |scaled| ==> scaled[k] == SampleAt(icon, t, k)
      {
        var srcX: int := x * (icon.width as int) / (t as int);
        var srcY: int := y * (icon.height as int) / (t as int);
        var idx: int := srcY * (icon.width as int) + srcX;
        RowMajor(x, y, t);
        assert SampleAt(icon, t, y * t + x) == Sample(icon, t, x, y);
        scaled := scaled + [if 0 <= idx < |icon.data| then icon.data[idx] else false];
        x := x + 1;
      }
      y := y + 1;
    }
    r := BwIcon(t, t, scaled);
  }

  /** Scaling a t-by-t icon that has t*t pixels to t leaves it unchanged. */
  lemma ScaleSquareIdentity(icon: BwIcon, t: u16)
    requires ScalableTo(t) && icon.width == t && icon.height == t && |icon.data| == t * t
    ensures Scaled(icon, t) == icon
  {
    var r := Scaled(icon, t);
    forall k | 0 <= k < t * t
      ensures r.data[k] == icon.data[k]
    {
      SampleSquare(icon, t, k);
    }
  }

  /** On a t-by-t icon, sampling for size t picks the pixel at the same index. */
  lemma SampleSquare(icon: BwIcon, t: u16, k: nat)
    requires ScalableTo(t) && icon.width == t && icon.height == t && |icon.data| == t * t
    requires k < t * t
    ensures SampleAt(icon, t, k) == icon.data[k]
  {
    var x, y := k % t, k / t;
    RowMajor(0, x, t);
    RowMajor(0, y, t);
    var srcX: int := x * (icon.width as int) / (t as int);
    var srcY: int := y * (icon.height as int) / (t as int);
    assert srcX == x && srcY == y;
    assert srcY * (icon.width as int) + srcX == k;
  }

  /** Rescaling is idempotent in size: scaling twice to t is scaling once. */
  lemma ScaleIdempotent(icon: BwIcon, t: u16)
    requires ScalableTo(t)
    ensures Scaled(Scaled(icon, t), t) == Scaled(icon, t)
  {
    ScaleSquareIdentity(Scaled(icon, t), t);
  }

  // ---------------------------------------------------------------------
  // Parsing the record buffer

  /** The complete records from word `idx` on: parsing stops at the first
      header with a zero dimension or a pixel count that would overrun. */
  function Records(data: seq<u32>, idx: nat): seq<IconRecord>
    decreases |data| - idx
  {
    if idx + 2 < |data| then
      var w, h := data[idx], data[idx + 1];
      var n: int := (w as int) * (h as int);
      if w == 0 || h == 0 || idx + 2 + n > |data| then []
      else [IconRecord(w, h, data[idx + 2..idx + 2 + n])] + Records(data, idx + 2 + n)
    else []
  }

  predicate WellFormed(r: IconRecord) {
    r.width > 0 && r.height > 0 && |r.pixels| == (r.width as int) * (r.height as int)
  }

  /** The words a record occupies. */
  function RecordWords(r: IconRecord): seq<u32> {
    [r.width, r.height] + r.pixels
  }

  function Serialize(recs: seq<IconRecord>): seq<u32> {
    if recs == [] then [] else RecordWords(recs[0]) + Serialize(recs[1..])
  }

  /** Parsing never reads past the buffer: the records it accepts are well
      formed and, laid end to end, are exactly the words at the front of
      `data[idx..]`. */
  lemma {:induction false} RecordsWithinBuffer(data: seq<u32>, idx: nat)
    requires idx <= |data|
    ensures forall r :: r in Records(data, idx) ==> WellFormed(r)
    ensures |Serialize(Records(data, idx))| <= |data| - idx
    ensures Serialize(Records(data, idx)) == data[idx..idx + |Serialize(Records(data, idx))|]
    decreases |data| - idx
  {
    if idx + 2 < |data| {
      var w, h := data[idx], data[idx + 1];
      var n: int := (w as int) * (h as int);
      if !(w == 0 || h == 0 || idx + 2 + n > |data|) {
        var next := idx + 2 + n;
        var rec := IconRecord(w, h, data[idx + 2..next]);
        RecordsWithinBuffer(data, next);
        assert Records(data, idx) == [rec] + Records(data, next);
        WithinBufferCons(data, idx, next, rec, Records(data, next));
      }
    }
  }

  /** The inductive step of `RecordsWithinBuffer`: a record occupying
      `data[idx..next]` in front of records laid out from `next`. */
  lemma WithinBufferCons(data: seq<u32>, idx: nat, next: nat, rec: IconRecord, rest: seq<IconRecord>)
    requires idx <= next <= |data| && RecordWords(rec) == data[idx..next] && WellFormed(rec)
    requires forall r :: r in rest ==> WellFormed(r)
    requires |Serialize(rest)| <= |data| - next
    requires Serialize(rest) == data[next..next + |Serialize(rest)|]
    ensures forall r :: r in [rec] + rest ==> WellFormed(r)
    ensures |Serialize([rec] + rest)| <= |data| - idx
    ensures Serialize([rec] + rest) == data[idx..idx + |Serialize([rec] + rest)|]
  {
    SerializeCons(rec, rest);
    var m := |Serialize(rest)|;
    assert data[idx..next] + data[next..next + m] == data[idx..next + m];
  }

  /** Laying out a record and then the rest. */
  lemma SerializeCons(r: IconRecord, rest: seq<IconRecord>)
    ensures Serialize([r] + rest) == RecordWords(r) + Serialize(rest)
  {
    assert ([r] + rest)[0] == r && ([r] + rest)[1..] == rest;
  }

  /** One well-formed record in front of `tail` parses as itself, then `tail`. */
  lemma RecordsOfRecordWords(r: IconRecord, tail: seq<u32>)
    requires WellFormed(r)
    ensures Records(RecordWords(r) + tail, 0) == [r] + Records(tail, 0)
  {
    var data := RecordWords(r) + tail;
    var n: int := (r.width as int) * (r.height as int);
    MulAtLeast(r.height, r.width);
    assert data[0] == r.width && data[1] == r.height;
    assert data[2..2 + n] == r.pixels;
    assert data[2 + n..] == tail;
    RecordsShift(data, 2 + n);
  }

  /** Parsing inverts laying records end to end: well-formed records come
      back unchanged, and whatever follows them is parsed on its own. */
  lemma {:induction false} RecordsOfSerialize(recs: seq<IconRecord>, rest: seq<u32>)
    requires forall r :: r in recs ==> WellFormed(r)
    ensures Records(Serialize(recs) + rest, 0) == recs + Records(rest, 0)
  {
    if recs == [] {
      assert Serialize(recs) + rest == rest;
    } else {
      var r, more := recs[0], recs[1..];
      assert recs == [r] + more;
      assert WellFormed(r);
      RecordsOfSerialize(more, rest);
      RecordsOfSerializeCons(r, more, rest);
    }
  }

  /** The inductive step of `RecordsOfSerialize`: one more record in front. */
  lemma RecordsOfSerializeCons(r: IconRecord, more: seq<IconRecord>, rest: seq<u32>)
    requires WellFormed(r)
    requires Records(Serialize(more) + rest, 0) == more + Records(rest, 0)
    ensures Records(Serialize([r] + more) + rest, 0) == [r] + more + Records(rest, 0)
  {
    var tail := Serialize(more) + rest;
    var after := Records(rest, 0);
    calc {
      Records(Serialize([r] + more) + rest, 0);
    == { SerializeCons(r, more);
         assert Serialize([r] + more) + rest == RecordWords(r) + tail; }
      Records(RecordWords(r) + tail, 0);
    == { RecordsOfRecordWords(r, tail); }
      [r] + Records(tail, 0);
    ==
      [r] + (more + after);
    == { SeqAssoc([r], more, after); }
      [r] + more + after;
    }
  }

  lemma SeqAssoc<T>(a: seq<T>, b: seq<T>, c: seq<T>)
    ensures a + (b + c) == a + b + c
  {
  }

  /** Parsing from word `k` only looks at `data[k..]`. */
  lemma {:induction false} RecordsShift(data: seq<u32>, k: nat)
    requires k <= |data|
    ensures Records(data, k) == Records(data[k..], 0)
    decreases |data| - k
  {
    RecordsShiftFrom(data, k, 0);
  }

  lemma {:induction false} RecordsShiftFrom(data: seq<u32>, k: nat, i: nat)
    requires k + i <= |data|
    ensures Records(data, k + i) == Records(data[k..], i)
    decreases |data| - k - i
  {
    var d := data[k..];
    if k + i + 2 < |data| {
      assert d[i] == data[k + i] && d[i + 1] == data[k + i + 1];
      var w, h := data[k + i], data[k + i + 1];
      var n: int := (w as int) * (h as int);
      MulLeMono(0, w, h);
      if !(w == 0 || h == 0 || k + i + 2 + n > |data|) {
        assert d[i + 2..i + 2 + n] == data[k + i + 2..k + i + 2 + n];
        RecordsShiftFrom(data, k, i + 2 + n);
      }
    }
  }

  /** A buffer shorter than three words holds no complete record. */
  lemma ShortBufferHasNoRecord(data: seq<u32>)
    requires |data| < 3
    ensures Records(data, 0) == []
  {
  }

  // ---------------------------------------------------------------------
  // Best-size selection

  function Abs(x: int): nat { if x < 0 then -x else x }

  /** How far a record's size is from the target: |w - t| + |h - t|. */
  function Distance(w: int, h: int, t: int): nat {
    Abs(w - t) + Abs(h - t)
  }

  /** `should_replace_best`: the first record always wins; a later one wins
      when strictly closer, or equally close and not narrower than the target. */
  function ShouldReplaceBest(best: Option<IconRecord>, w: u32, h: u32, t: u16): (b: bool)
    ensures best.None? ==> b
    ensures best.Some? && Distance(w, h, t) < Distance(best.value.width, best.value.height, t) ==> b
    ensures best.Some? && Distance(w, h, t) > Distance(best.value.width, best.value.height, t) ==> !b
    ensures best.Some? && Distance(w, h, t) == Distance(best.value.width, best.value.height, t) ==> (b <==> w >= t)
  {
    match best
    case None => true
    case Some(b) =>
      var bestDiff := Distance(b.width, b.height, t);
      var thisDiff := Distance(w, h, t);
      thisDiff < bestDiff || (thisDiff == bestDiff && w >= t)
  }

  /** The `best` variable after the loop has seen `recs`, starting from `best`. */
  function SelectBest(best: Option<IconRecord>, recs: seq<IconRecord>, t: u16): Option<IconRecord>
    decreases |recs|
  {
    if recs == [] then best
    else
      var r := recs[0];
      SelectBest(if ShouldReplaceBest(best, r.width, r.height, t) then Some(r) else best, recs[1..], t)
  }

  /** `find_best_icon`: walks the buffer record by record, keeping the best. */
  method FindBestIcon(data: seq<u32>, t: u16) returns (best: Option<IconRecord>)
    ensures best == SelectBest(None, Records(data, 0), t)
  {
    best := None;
    var idx := 0;
    while idx + 2 < |data|
      invariant idx <= |data|
      invariant SelectBest(best, Records(data, idx), t) == SelectBest(None, Records(data, 0), t)
      decreases |data| - idx
    {
      var width := data[idx];
      var height := data[idx + 1];
      var pixelCount: int := (width as int) * (height as int);
      MulLeMono(0, width, height);
      if width == 0 || height == 0 || idx + 2 + pixelCount > |data| {
        break;
      }
      var pixels := data[idx + 2..idx + 2 + pixelCount];
      var rec := IconRecord(width, height, pixels);
      assert Records(data, idx) == [rec] + Records(data, idx + 2 + pixelCount);
      SelectBestCons(best, rec, Records(data, idx + 2 + pixelCount), t);
      if ShouldReplaceBest(best, width, height, t) {
        best := Some(rec);
      }
      idx := idx + 2 + pixelCount;
    }
  }

  /** The selection yields a record exactly when there is one, and what it
      yields is one of the parsed records, at the smallest distance from the
      target; when some record at that distance is at least as wide as the
      target, so is the one chosen. */
  lemma {:induction false} SelectBestIsClosest(best: Option<IconRecord>, recs: seq<IconRecord>, t: u16)
    ensures SelectBest(best, recs, t).None? <==> best.None? && recs == []
    ensures var r := SelectBest(best, recs, t);
      r.Some? ==> (r == best || r.value in recs)
    ensures var r := SelectBest(best, recs, t);
      r.Some? ==> forall x :: x in recs ==> Distance(r.value.width, r.value.height, t) <= Distance(x.width, x.height, t)
    ensures var r := SelectBest(best, recs, t);
      r.Some? && best.Some? ==> Distance(r.value.width, r.value.height, t) <= Distance(best.value.width, best.value.height, t)
    ensures var r := SelectBest(best, recs, t);
      r.Some? && (best.Some? && best.value.width >= t
                  && Distance(best.value.width, best.value.height, t) == Distance(r.value.width, r.value.height, t))
      ==> r.value.width >= t
    ensures var r := SelectBest(best, recs, t);
      r.Some? && (exists x :: (x in recs && x.width >= t
                  && Distance(x.width, x.height, t) == Distance(r.value.width, r.value.height, t)))
      ==> r.value.width >= t
    decreases |recs|
  {
    if recs != [] {
      var x := recs[0];
      var next := if ShouldReplaceBest(best, x.width, x.height, t) then Some(x) else best;
      SelectBestIsClosest(next, recs[1..], t);
      var r := SelectBest(best, recs, t);
      assert r == SelectBest(next, recs[1..], t);
      forall y | y in recs
        ensures Distance(r.value.width, r.value.height, t) <= Distance(y.width, y.height, t)
      {
        if y != x { assert y in recs[1..]; }
      }
      if exists y :: y in recs && y.width >= t && Distance(y.width, y.height, t) == Distance(r.value.width, r.value.height, t) {
        var y :| y in recs && y.width >= t && Distance(y.width, y.height, t) == Distance(r.value.width, r.value.height, t);
        if y != x { assert y in recs[1..]; }
      }
    }
  }

  /** One step of the selection: the first record replaces `best` or not. */
  lemma SelectBestCons(best: Option<IconRecord>, r: IconRecord, rest: seq<IconRecord>, t: u16)
    ensures SelectBest(best, [r] + rest, t)
         == SelectBest(if ShouldReplaceBest(best, r.width, r.height, t) then Some(r) else best, rest, t)
  {
    assert ([r] + rest)[0] == r && ([r] + rest)[1..] == rest;
  }

  /** The candidate sizes 16, 32 and 64 with target 48 select the 64x64
      record: it is 32 away, the 32x32 one is too, and it is not narrower
      than the target. */
  lemma BestOfThreeSizes(p16: seq<u32>, p32: seq<u32>, p64: seq<u32>)
    requires |p16| == 16 * 16 && |p32| == 32 * 32 && |p64| == 64 * 64
    ensures var recs := [IconRecord(16, 16, p16), IconRecord(32, 32, p32), IconRecord(64, 64, p64)];
      SelectBest(None, Records(Serialize(recs), 0), 48) == Some(recs[2])
  {
    var a, b, c := IconRecord(16, 16, p16), IconRecord(32, 32, p32), IconRecord(64, 64, p64);
    var recs := [a, b, c];
    assert WellFormed(a) && WellFormed(b) && WellFormed(c);
    RecordsOfSerialize(recs, []);
    ShortBufferHasNoRecord([]);
    assert Serialize(recs) + [] == Serialize(recs) && recs + [] == recs;
    assert Records(Serialize(recs), 0) == recs;
    SelectAmongThree(a, b, c);
  }

  lemma SelectAmongThree(a: IconRecord, b: IconRecord, c: IconRecord)
    requires a.width == 16 && a.height == 16 && b.width == 32 && b.height == 32
    requires c.width == 64 && c.height == 64
    ensures SelectBest(None, [a, b, c], 48) == Some(c)
  {
    assert [a, b, c] == [a] + [b, c] && [b, c] == [b] + [c] && [c] == [c] + [];
    SelectBestCons(None, a, [b, c], 48);
    SelectBestCons(Some(a), b, [c], 48);
    SelectBestCons(Some(b), c, [], 48);
  }

  // ---------------------------------------------------------------------
  // From property bytes to a 1-bit icon

  /** The word whose bytes, most significant first, are b3 b2 b1 b0. */
  function Word(b3: int, b2: int, b1: int, b0: int): u32
    requires 0 <= b3 < 0x100 && 0 <= b2 < 0x100 && 0 <= b1 < 0x100 && 0 <= b0 < 0x100
  {
    0x100_0000 * b3 + 0x1_0000 * b2 + 0x100 * b1 + b0
  }

  /** The word assembled from bytes `i..i+4` in the host's byte order. */
  function WordAt(bytes: seq<byte>, i: nat, hostLittleEndian: bool): u32
    requires i + 4 <= |bytes|
  {
    if hostLittleEndian
    then Word(bytes[i + 3], bytes[i + 2], bytes[i + 1], bytes[i])
    else Word(bytes[i], bytes[i + 1], bytes[i + 2], bytes[i + 3])
  }

  /** `cast_bytes_to_u32`: the buffer read as `len / 4` native words; a
      trailing group shorter than four bytes is dropped. */
  function CastBytesToU32(bytes: seq<byte>, hostLittleEndian: bool): (words: seq<u32>)
    ensures |words| == |bytes| / 4
    ensures bytes == [] ==> words == []
  {
    seq(|bytes| / 4, i requires 0 <= i < |bytes| / 4 => WordAt(bytes, 4 * i, hostLittleEndian))
  }

  /** `argb_to_bw` for one pixel: blend the BT.601 luminance over white by
      alpha and call it black below one half. Computed exactly: with S the
      weighted channel sum 299R + 587G + 114B and A the alpha byte,
      `S*A/(1000*255*255) + (255-A)/255 < 1/2`, multiplied out. */
  predicate IsInk(argb: u32) {
    var a := (argb / 0x100_0000) % 0x100;
    var r := (argb / 0x1_0000) % 0x100;
    var g := (argb / 0x100) % 0x100;
    var b := argb % 0x100;
    2 * (299 * r + 587 * g + 114 * b) * a + 2 * 1000 * 255 * (255 - a) < 1000 * 255 * 255
  }

  function ArgbToBw(pixels: seq<u32>): (bw: seq<bool>)
    ensures |bw| == |pixels| && forall i :: 0 <= i < |pixels| ==> bw[i] == IsInk(pixels[i])
  {
    seq(|pixels|, i requires 0 <= i < |pixels| => IsInk(pixels[i]))
  }

  /** Opaque black is ink; opaque white and full transparency are not. */
  lemma InkExamples()
    ensures IsInk(0xFF00_0000)
    ensures !IsInk(0xFFFF_FFFF)
    ensures !IsInk(0x0000_0000)
  {
  }

  /** A fully transparent pixel is never ink, whatever its colour; an opaque
      one is ink exactly when its weighted channel sum is below half of white's. */
  lemma InkByAlpha(argb: u32)
    ensures argb / 0x100_0000 == 0 ==> !IsInk(argb)
    ensures argb / 0x100_0000 == 0xFF ==>
      (IsInk(argb) <==> 299 * ((argb / 0x1_0000) % 0x100) + 587 * ((argb / 0x100) % 0x100) + 114 * (argb % 0x100) < 127500)
  {
  }

  /** `get_window_icon`: no icon when the property is missing or empty,
      shorter than two words, or holds no complete record; otherwise the
      best record, reduced to one bit and scaled to the target. */
  function GetWindowIcon(srv: Server, w: Window, t: u16, hostLittleEndian: bool): (r: Option<BwIcon>)
    requires ScalableTo(t)
    ensures r.Some? ==> r.value.width == t && r.value.height == t && |r.value.data| == t * t
    ensures w !in srv.netWmIcon || |srv.netWmIcon[w]| < 12 ==> r.None?
    ensures w in srv.netWmIcon ==>
      (r.Some? <==> Records(CastBytesToU32(srv.netWmIcon[w], hostLittleEndian), 0) != [])
  {
    if w !in srv.netWmIcon then None
    else
      var bytes := srv.netWmIcon[w];
      if bytes == [] then None
      else
        var data := CastBytesToU32(bytes, hostLittleEndian);
        if |data| < 2 then None
        else
          SelectBestIsClosest(None, Records(data, 0), t);
          match SelectBest(None, Records(data, 0), t)
          case None => None
          case Some(rec) =>
            Some(Scaled(BwIcon(TruncU16(rec.width), TruncU16(rec.height), ArgbToBw(rec.pixels)), t))
  }

  // ---------------------------------------------------------------------
  // The generic fallback icon

  /** Pixel (x, y) of the generic icon of side s: a 2-pixel outer ring, a
      title band of s/5 rows below the top ring, and an inner ring one pixel
      inside on the left, right and bottom. */
  predicate GenericPixel(s: nat, x: nat, y: nat)
    requires s >= 3
  {
    var border := 2;
    (x < border || x >= s - border || y < border || y >= s - border)
    || y < s / 5 + border
    || (x == border || x == s - border - 1 || y == s - border - 1)
  }

  /** `create_generic_icon` evaluates `s - border - 1` in usize for every
      pixel, so any non-empty size below 3 would underflow. */
  predicate GenericSizeOk(s: u16) { s == 0 || s >= 3 }

  /** The generic icon's pixel stored at row-major index k. */
  predicate GenericAt(s: nat, k: nat)
    requires s >= 3
  {
    GenericPixel(s, k % s, k / s)
  }

  /** Cell (x, y) of an s-by-s grid is stored at index y*s + x, inside the grid. */
  lemma GenericAtCell(s: nat, x: nat, y: nat)
    requires s >= 3 && x < s && y < s
    ensures y * s + x < s * s
    ensures GenericAt(s, y * s + x) == GenericPixel(s, x, y)
  {
    RowMajor(x, y, s);
    IndexInGrid(x, y, s, s);
  }

  /** The generic icon of side `size` as a value. */
  function GenericIcon(size: u16): (icon: BwIcon)
    requires size >= 3
    ensures icon.width == size && icon.height == size && |icon.data| == size * size
  {
    BwIcon(size, size, seq(size * size, k requires 0 <= k < size * size => GenericAt(size, k)))
  }

  /** `create_generic_icon`: fills a zeroed s*s buffer in place, pixel by pixel. */
  method CreateGenericIcon(size: u16) returns (icon: BwIcon)
    requires GenericSizeOk(size)
    ensures icon.width == size && icon.height == size && |icon.data| == size * size
    ensures forall k :: 0 <= k < size * size ==> icon.data[k] == GenericAt(size, k)
    ensures size >= 3 ==> icon == GenericIcon(size)
  {
    var s: nat := size;
    var data := new bool[s * s](_ => false);
    var y, i := 0, 0;
    while y < s
      invariant 0 <= y <= s && i == y * s && i <= data.Length
      invariant forall k :: 0 <= k < i ==> data[k] == GenericAt(s, k)
    {
      var x := 0;
      while x < s
        invariant 0 <= x <= s && i == y * s + x && i <= data.Length
        invariant forall k :: 0 <= k < i ==> data[k] == GenericAt(s, k)
      {
        var border := 2;
        var isBorder := x < border || x >= s - border || y < border || y >= s - border;
        var isTitlebar := y < s / 5 + border;
        var isInnerBorder := x == border || x == s - border - 1 || y == s - border - 1;
        GenericAtCell(s, x, y);
        data[i] := isBorder || isTitlebar || isInnerBorder;
        x, i := x + 1, i + 1;
      }
      assert i == (y + 1) * s;
      y := y + 1;
    }
    icon := BwIcon(size, size, data[..]);
  }

  /** Pixel (x, y) of an icon built by `CreateGenericIcon`, in two dimensions. */
  lemma GenericIconPixel(icon: BwIcon, size: u16, x: nat, y: nat)
    requires size >= 3 && x < size && y < size
    requires icon.width == size && |icon.data| == size * size
    requires forall k :: 0 <= k < size * size ==> icon.data[k] == GenericAt(size, k)
    ensures y * size + x < size * size
    ensures icon.data[y * size + x] == GenericPixel(size, x, y)
  {
    GenericAtCell(size, x, y);
  }
}
