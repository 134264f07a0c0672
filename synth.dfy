/** The column synthesizer: the loops of `process` that turn the decoded
    image into the signed 8-bit sample stream, column by column. Image
    decoding and file writing are outside this model: the image comes in as
    an `Image` value and the bytes written go out as the returned sequence. */
module Synth {
  import opened Colour
  import opened Waves
  import opened Column

  /** The accumulation loop `col_buffer[i] += place_buffer[i]`: adds one
      note's samples into the column buffer, element by element. */
  method AddInto(col: array<real>, place: array<real>)
    requires col != place && col.Length == place.Length
    modifies col
    ensures col[..] == AddSamples(old(col[..]), place[..])
  {
    for k := 0 to col.Length
      invariant forall j :: 0 <= j < k ==> col[j] == old(col[j]) + place[j]
      invariant forall j :: k <= j < col.Length ==> col[j] == old(col[j])
    {
      col[k] := col[k] + place[k];
    }
  }

  /** The loop run when no note was placed: every sample of the column
      buffer set to 0. */
  method Silence(col: array<real>)
    modifies col
    ensures col[..] == Zeros(col.Length)
  {
    for k := 0 to col.Length
      invariant forall j :: 0 <= j < k ==> col[j] == 0.0
    {
      col[k] := 0.0;
    }
  }

  /** The conversion loop `int_buffer[i] = (int8_t)(col_buffer[i] * INT8_MAX)`:
      one output byte per buffer sample, in order. */
  method QuantizeBuffer(col: array<real>) returns (bytes: seq<int>)
    ensures |bytes| == col.Length
    ensures forall i :: 0 <= i < col.Length ==> bytes[i] == Quantize(col[i])
  {
    var buffer := new int[col.Length];
    for k := 0 to col.Length
      invariant forall j :: 0 <= j < k ==> buffer[j] == Quantize(col[j])
    {
      buffer[k] := Quantize(col[k]);
    }
    bytes := buffer[..];
  }

  /** The three channel reads `data[i + 0]`, `data[i + 1]`, `data[i + 2]`
      at `i = y * w * n + x`. */
  method ReadPixel(img: Image, x: nat, y: nat) returns (r: byte, g: byte, b: byte)
    requires Readable(img, x, y)
    ensures Rgb(r, g, b) == PixelAt(img, x, y)
  {
    var i := y * img.width * img.channels + x;
    assert i == PixelIndex(img, x, y);
    r, g, b := img.data[i + 0], img.data[i + 1], img.data[i + 2];
  }

  /** The body of the row loop once a pixel becomes a note: key 88 - y,
      its frequency, amplitude and wave kind, the note's samples generated
      into a fresh buffer and added into the column buffer. */
  method PlaceNote(lib: MathLib, y: nat, r: byte, g: byte, b: byte, t: real, rate: nat, col: array<real>)
    requires rate > 0
    modifies col
    ensures col[..] == AddSamples(old(col[..]),
      Render(lib, Note(NumKeys - y, ColorToWave(r, g, b), ColorToAmplitude(r, g, b) / MaxNotes as real), t, rate, col.Length))
  {
    var spp := col.Length;
    var key := NumKeys - y;
    var f := KeyToFrequency(lib, key);
    var a := ColorToAmplitude(r, g, b) / MaxNotes as real;
    var w := ColorToWave(r, g, b);
    var place := new real[spp];
    GenerateSamples(place, lib, w, t, f, a, rate, spp);
    assert place[..] == place[..spp];
    AddInto(col, place);
  }

  /** One pass of the row loop past the cap test: the pixel read, skipped
      when black, and otherwise placed as a note into the column buffer.
      Reports whether a note was placed. */
  method ScanRow(img: Image, lib: MathLib, x: nat, y: nat, t: real, rate: nat, col: array<real>,
                 ghost placed: seq<nat>) returns (added: bool)
    requires rate > 0
    requires x < img.width && y < MaxY(img) && Readable(img, x, y)
    requires ScannedRows(img, x, placed)
    requires col[..] == Mix(lib, NotesOf(img, x, placed), t, rate, col.Length)
    modifies col
    ensures added <==> !Silent(img, x, y)
    ensures !added ==> NonBlackRows(img, x, y + 1) == NonBlackRows(img, x, y) && col[..] == old(col[..])
    ensures added ==> NonBlackRows(img, x, y + 1) == NonBlackRows(img, x, y) + [y]
    ensures added ==> ScannedRows(img, x, placed + [y])
    ensures added ==> col[..] == Mix(lib, NotesOf(img, x, placed + [y]), t, rate, col.Length)
  {
    var spp := col.Length;
    var r, g, b := ReadPixel(img, x, y);
    NonBlackRowsStep(img, x, y, Rgb(r, g, b));
    if IsBlack(r, g, b) {
      return false;
    }
    PlaceNote(lib, y, r, g, b, t, rate, col);
    MixPlaceRow(img, lib, x, placed, y, t, rate, spp);
    return true;
  }

  /** The row loop of one column of `process`: the rows scanned top to
      bottom, the note counter tested against max_notes before each row,
      and each row handed to ScanRow. Returns the final note count. */
  method ScanRows(img: Image, lib: MathLib, x: nat, t: real, rate: nat, col: array<real>) returns (notes: int)
    requires rate > 0
    requires ScanReadsInBounds(img, x)
    requires col[..] == Zeros(col.Length)
    modifies col
    ensures notes == |PlacedRows(img, x)|
    ensures col[..] == Mix(lib, ColumnNotes(img, x), t, rate, col.Length)
  {
    var spp := col.Length;
    var maxY := if img.height < NumKeys then img.height else NumKeys;
    notes := 0;
    ghost var placed: seq<nat> := [];
    ghost var stop := maxY;  // the row at which the scan ended
    for y := 0 to maxY
      invariant stop == maxY
      invariant placed == NonBlackRows(img, x, y) && ScannedRows(img, x, placed)
      invariant notes == |placed| <= MaxNotes + 1
      invariant col[..] == Mix(lib, NotesOf(img, x, placed), t, rate, spp)
    {
      if notes > MaxNotes {
        stop := y;
        break;
      }
      assert |NonBlackRows(img, x, y)| <= MaxNotes;
      assert Readable(img, x, y);
      var added := ScanRow(img, lib, x, y, t, rate, col, placed);
      if added {
        notes := notes + 1;
        placed := placed + [y];
      }
    }
    ScanStopsAtPlacedRows(img, x, stop);
  }

  /** One column of `process`, from the zeroed buffer to the spp bytes
      written: the row scan, the silence loop when no note was placed, and
      the conversion of the buffer to bytes. */
  method SynthesizeColumn(img: Image, lib: MathLib, x: nat, t: real, rate: nat, spp: nat) returns (bytes: seq<int>)
    requires rate > 0
    requires ScanReadsInBounds(img, x)
    ensures |bytes| == spp
    ensures bytes == ColumnBytes(img, lib, x, t, rate, spp)
  {
    var col := new real[spp](_ => 0.0);
    assert col[..] == Zeros(spp);
    var notes := ScanRows(img, lib, x, t, rate, col);
    ghost var mixed := col[..];
    if notes == 0 {
      Silence(col);
      assert col[..] == mixed;
    }
    bytes := QuantizeBuffer(col);
    assert bytes == QuantizeAll(mixed);
  }

  /** `process` from the first column to the last: each column's bytes are
      appended to the output in order and the time advances by spp / rate
      seconds per column, so the output holds width * spp bytes. */
  method Process(img: Image, lib: MathLib, rate: nat, spp: nat) returns (out: seq<int>)
    requires rate > 0
    requires ReadsInBounds(img)
    ensures |out| == img.width * spp
    ensures out == Stream(img, lib, rate, spp, img.width)
  {
    var tpp := spp as real / rate as real;
    var t := 0.0;
    out := [];
    for x := 0 to img.width
      invariant t == ColumnTime(x, rate, spp)
      invariant out == Stream(img, lib, rate, spp, x)
    {
      var bytes := SynthesizeColumn(img, lib, x, t, rate, spp);
      StreamStep(img, lib, rate, spp, x);
      ColumnTimeStep(x, rate, spp);
      out := out + bytes;
      t := t + tpp;
    }
  }
}
