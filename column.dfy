/** What one image column turns into, stated as functions: which rows become
    notes, what each note is, how the notes are mixed into the column buffer,
    and how the buffer becomes output bytes. The imperative `Synth.Process`
    is proved to produce exactly this. */
module Column {
  import opened Colour
  import opened Waves
  import opened Blocks

  /** num_keys: the piano has 88 keys, so at most 88 rows are audible. */
  const NumKeys: nat := 88
  /** max_notes: the polyphony cap the scan tests against. */
  const MaxNotes: nat := 12
  /** INT8_MAX, the scale of the output samples. */
  const Int8Max: int := 127

  /** The decoded image: width, height, the channel count the file had, and
      the pixel bytes. */
  datatype Image = Image(width: nat, height: nat, channels: nat, data: seq<byte>)

  /** What the decoder, asked for three components, hands over: three bytes
      per pixel, whatever channel count the file had. */
  predicate Loaded(img: Image)
  {
    |img.data| == 3 * img.width * img.height
  }

  /** max_y: the number of rows scanned in each column. */
  function MaxY(img: Image): (m: nat)
    ensures m <= NumKeys && m <= img.height
    ensures m == NumKeys || m == img.height
  {
    if img.height < NumKeys then img.height else NumKeys
  }

  /** The index the source reads pixel (x, y) from, `y * w * n + x`, with
      `w` the image width and `n` the file's channel count: x bytes into the
      y-th run of w * n bytes. */
  function PixelIndex(img: Image, x: nat, y: nat): (i: nat)
    ensures i == Offset(y, img.width * img.channels) + x
  {
    OffsetIsProduct(y, img.width * img.channels);
    y * img.width * img.channels + x
  }

  /** The three bytes read for pixel (x, y) lie inside the pixel bytes. */
  predicate Readable(img: Image, x: nat, y: nat)
  {
    PixelIndex(img, x, y) + 2 < |img.data|
  }

  /** The three channels of a pixel. */
  datatype Rgb = Rgb(r: byte, g: byte, b: byte)

  /** The three bytes the source reads for pixel (x, y). In the first
      column of a three-channel image they are the pixel's own bytes. */
  function PixelAt(img: Image, x: nat, y: nat): (c: Rgb)
    requires Readable(img, x, y)
    ensures img.channels == 3 && x == 0 ==>
      var j := RgbIndex(img, x, y);
      j + 2 < |img.data| && c == Rgb(img.data[j], img.data[j + 1], img.data[j + 2])
  {
    var i := PixelIndex(img, x, y);
    Rgb(img.data[i], img.data[i + 1], img.data[i + 2])
  }

  /** Pixel (x, y) plays no note: it is black. A pixel whose bytes lie past
      the end has no colour and plays none either; the scan never reads one
      in a column that meets ScanReadsInBounds. */
  function Silent(img: Image, x: nat, y: nat): (silent: bool)
    ensures !Readable(img, x, y) ==> silent
  {
    !Readable(img, x, y) || var c := PixelAt(img, x, y); IsBlack(c.r, c.g, c.b)
  }

  /** The rows 0 .. hi-1 of column x whose pixel is not black, top to bottom. */
  function NonBlackRows(img: Image, x: nat, hi: nat): (rows: seq<nat>)
    requires x < img.width && hi <= MaxY(img)
    ensures |rows| <= hi
  {
    if hi == 0 then []
    else NonBlackRows(img, x, hi - 1) + (if Silent(img, x, hi - 1) then [] else [hi - 1])
  }

  /** Every read the scan of column x makes stays inside the pixel bytes:
      row y is read exactly when it is scanned and at most max_notes
      non-black rows lie above it (otherwise the loop has already broken). */
  predicate ScanReadsInBounds(img: Image, x: nat)
  {
    x < img.width
    && forall y: nat :: y < MaxY(img) && |NonBlackRows(img, x, y)| <= MaxNotes ==> Readable(img, x, y)
  }

  /** Every column's scan reads inside the pixel bytes. */
  predicate ReadsInBounds(img: Image)
  {
    forall x: nat :: x < img.width ==> ScanReadsInBounds(img, x)
  }

  /** The arithmetic behind ReadsInBoundsUpToThreeChannels: with n <= 3,
      the last byte read for (x, y) lies before 3 * w * h. */
  lemma ThreeChannelReadBound(w: nat, h: nat, n: nat, x: nat, y: nat)
    requires n <= 3 && x < w && y < h
    ensures y * w * n + x + 2 < 3 * w * h
  {
    MulLe(n, 3, y * w);
    MulLe(y + 1, h, w);
    assert (y + 1) * w == y * w + w;
  }

  /** With at most three channels every pixel of the scanned rows is
      readable, so every scan reads in bounds. */
  lemma ReadsInBoundsUpToThreeChannels(img: Image)
    requires Loaded(img) && img.channels <= 3
    ensures ReadsInBounds(img)
  {
    forall x: nat | x < img.width
      ensures ScanReadsInBounds(img, x)
    {
      forall y: nat | y < MaxY(img)
        ensures Readable(img, x, y)
      {
        ThreeChannelReadBound(img.width, img.height, img.channels, x, y);
      }
    }
  }

  /** A scan whose first max_notes + 1 rows are all non-black breaks before
      reading any row below them, so only those rows need to be readable. */
  lemma CapStopsReads(img: Image, x: nat)
    requires x < img.width && MaxNotes < MaxY(img)
    requires forall y :: 0 <= y <= MaxNotes ==> !Silent(img, x, y)
    ensures ScanReadsInBounds(img, x)
  {
    NonBlackRowsAll(img, x, MaxNotes + 1);
    forall y: nat | y < MaxY(img)
      ensures |NonBlackRows(img, x, y)| <= MaxNotes ==> Readable(img, x, y)
    {
      if y <= MaxNotes {
        assert !Silent(img, x, y);
      } else {
        NonBlackRowsPrefix(img, x, MaxNotes + 1, y);
        assert |NonBlackRows(img, x, y)| > MaxNotes;
      }
    }
  }

  /** The arithmetic behind FourChannelsTallImageReadsInBounds: with four
      channels and at least 17 rows, rows 0 .. 12 are readable. */
  lemma FourChannelTopRowsBound(w: nat, h: nat, x: nat, y: nat)
    requires x < w && y <= MaxNotes && 17 <= h
    ensures y * w * 4 + x + 2 < 3 * w * h
  {
    MulLe(y, MaxNotes, w * 4);
    MulLe(17, h, w);
  }

  /** A four-channel image of at least 17 rows with no zero byte (an
      all-white RGBA image, say) is scanned in bounds: every column breaks
      at the cap before its reads leave the pixel bytes. */
  lemma FourChannelsTallImageReadsInBounds(img: Image)
    requires Loaded(img) && img.channels == 4 && 17 <= img.height
    requires forall i :: 0 <= i < |img.data| ==> img.data[i] != 0
    ensures ReadsInBounds(img)
  {
    forall x: nat | x < img.width
      ensures ScanReadsInBounds(img, x)
    {
      forall y | 0 <= y <= MaxNotes
        ensures !Silent(img, x, y)
      {
        FourChannelTopRowsBound(img.width, img.height, x, y);
        assert Readable(img, x, y);
        assert img.data[PixelIndex(img, x, y)] != 0;
      }
      CapStopsReads(img, x);
    }
  }

  /** The arithmetic behind FourChannelsReadPastEnd: with four channels and
      3 .. 16 rows, the last column's read of row min(h - 1, 12) lands at or
      past 3 * w * h. */
  lemma FourChannelReadBound(w: nat, h: nat, y: nat)
    requires w >= 1 && 3 <= h <= 16
    requires y == if h - 1 < MaxNotes then h - 1 else MaxNotes
    ensures y * w * 4 + (w - 1) + 2 >= 3 * w * h
  {
    if h - 1 < MaxNotes {
      MulLe(3, h, w);
      assert (h - 1) * w * 4 == 4 * (h * w) - 4 * w;
    } else {
      MulLe(h, 16, w);
    }
  }

  /** With four channels and between 3 and 16 rows, the scan of the last
      column reads past the end of the pixel bytes: it always reaches row
      min(h - 1, 12), whose bytes lie beyond 3 * w * h. */
  lemma FourChannelsReadPastEnd(img: Image)
    requires Loaded(img) && img.channels == 4
    requires img.width >= 1 && 3 <= img.height <= 16
    ensures !ScanReadsInBounds(img, img.width - 1)
    ensures !ReadsInBounds(img)
  {
    var w, h := img.width, img.height;
    var x: nat := w - 1;
    var y: nat := if h - 1 < MaxNotes then h - 1 else MaxNotes;
    FourChannelReadBound(w, h, y);
    assert y < MaxY(img) && |NonBlackRows(img, x, y)| <= MaxNotes;
    assert !Readable(img, x, y);
  }

  /** The index of the red byte of pixel (x, y) in a buffer of three bytes per pixel. */
  function RgbIndex(img: Image, x: nat, y: nat): (i: nat)
    ensures i % 3 == 0 && i / 3 == y * img.width + x
  {
    (y * img.width + x) * 3
  }

  /** Every pixel of the image addressed through RgbIndex is read inside the
      buffer, whatever the file's channel count. */
  lemma RgbIndexInBounds(img: Image, x: nat, y: nat)
    requires Loaded(img) && x < img.width && y < img.height
    ensures RgbIndex(img, x, y) + 2 < |img.data|
  {
    var w, h := img.width, img.height;
    MulLe(y + 1, h, w);
    assert (y + 1) * w == y * w + w;
  }

  /** For a three-channel image and any column but the first, the source's
      index is not the red byte of the pixel it means to read. */
  lemma PixelIndexMissesPixel(img: Image, x: nat, y: nat)
    requires img.channels == 3 && 0 < x < img.width
    ensures PixelIndex(img, x, y) != RgbIndex(img, x, y)
    ensures PixelIndex(img, x, y) + 2 * x == RgbIndex(img, x, y)
  {
  }

  /** NonBlackRows lists exactly the non-black rows above hi, each once, in
      increasing order. */
  lemma {:induction false} NonBlackRowsSpec(img: Image, x: nat, hi: nat)
    requires x < img.width && hi <= MaxY(img)
    ensures var rows := NonBlackRows(img, x, hi);
      (forall i :: 0 <= i < |rows| ==> rows[i] < hi && !Silent(img, x, rows[i]))
      && (forall i, j :: 0 <= i < j < |rows| ==> rows[i] < rows[j])
      && (forall y :: 0 <= y < hi && !Silent(img, x, y) ==> y in rows)
  {
    if hi > 0 {
      NonBlackRowsSpec(img, x, hi - 1);
    }
  }

  /** Scanning row y appends it exactly when its colour (r, g, b) is not black. */
  lemma NonBlackRowsStep(img: Image, x: nat, y: nat, c: Rgb)
    requires x < img.width && y < MaxY(img) && Readable(img, x, y)
    requires c == PixelAt(img, x, y)
    ensures NonBlackRows(img, x, y + 1)
         == NonBlackRows(img, x, y) + (if IsBlack(c.r, c.g, c.b) then [] else [y])
  {
  }

  /** Scanning further down only appends rows. */
  lemma {:induction false} NonBlackRowsPrefix(img: Image, x: nat, lo: nat, hi: nat)
    requires x < img.width && lo <= hi <= MaxY(img)
    ensures NonBlackRows(img, x, lo) <= NonBlackRows(img, x, hi)
  {
    if lo < hi {
      NonBlackRowsPrefix(img, x, lo, hi - 1);
    }
  }

  /** When no row above `hi` is black, every one of them is a non-black row. */
  lemma {:induction false} NonBlackRowsAll(img: Image, x: nat, hi: nat)
    requires x < img.width && hi <= MaxY(img)
    requires forall y :: 0 <= y < hi ==> !Silent(img, x, y)
    ensures |NonBlackRows(img, x, hi)| == hi
  {
    if hi > 0 {
      NonBlackRowsAll(img, x, hi - 1);
    }
  }

  /** When every row above `hi` is black, there is no non-black row. */
  lemma {:induction false} NonBlackRowsNone(img: Image, x: nat, hi: nat)
    requires x < img.width && hi <= MaxY(img)
    requires forall y :: 0 <= y < hi ==> Silent(img, x, y)
    ensures NonBlackRows(img, x, hi) == []
  {
    if hi > 0 {
      NonBlackRowsNone(img, x, hi - 1);
    }
  }

  /** The first n rows of `rows`, or all of them when there are fewer. */
  function Take(rows: seq<nat>, n: nat): (p: seq<nat>)
    ensures |p| == if |rows| <= n then |rows| else n
    ensures p <= rows
  {
    if |rows| <= n then rows else rows[..n]
  }

  /** The rows that become notes in column x, as the source selects them:
      the cap test `notes > max_notes` runs before a note is added, so the
      scan places up to MaxNotes + 1 notes, taken from the top. */
  function PlacedRows(img: Image, x: nat): (p: seq<nat>)
    requires x < img.width
    ensures |p| == if |NonBlackRows(img, x, MaxY(img))| <= MaxNotes + 1 then |NonBlackRows(img, x, MaxY(img))| else MaxNotes + 1
    ensures p <= NonBlackRows(img, x, MaxY(img))
  {
    Take(NonBlackRows(img, x, MaxY(img)), MaxNotes + 1)
  }

  /** The scan stops with exactly the placed rows: either it reached the
      last scanned row with at most MaxNotes + 1 non-black rows found, or it
      found MaxNotes + 1 of them above row y. */
  lemma ScanStopsAtPlacedRows(img: Image, x: nat, y: nat)
    requires x < img.width && y <= MaxY(img)
    requires |NonBlackRows(img, x, y)| <= MaxNotes + 1
    requires y == MaxY(img) || |NonBlackRows(img, x, y)| == MaxNotes + 1
    ensures NonBlackRows(img, x, y) == PlacedRows(img, x)
  {
    NonBlackRowsPrefix(img, x, y, MaxY(img));
  }

  /** The placed rows are non-black scanned rows, top to bottom, at most
      MaxNotes + 1 of them; a non-black row is left out only when the cap
      was reached, and then every placed row lies above it. */
  lemma PlacedRowsAreTopmostNonBlack(img: Image, x: nat)
    requires x < img.width
    ensures var p := PlacedRows(img, x);
      |p| <= MaxNotes + 1
      && (forall i :: 0 <= i < |p| ==> p[i] < MaxY(img) && !Silent(img, x, p[i]))
      && (forall i, j :: 0 <= i < j < |p| ==> p[i] < p[j])
      && (forall y :: 0 <= y < MaxY(img) && !Silent(img, x, y) && y !in p ==>
            |p| == MaxNotes + 1 && forall i :: 0 <= i < |p| ==> p[i] < y)
  {
    var all := NonBlackRows(img, x, MaxY(img));
    NonBlackRowsSpec(img, x, MaxY(img));
    var p := PlacedRows(img, x);
    assert forall i :: 0 <= i < |p| ==> p[i] == all[i];
    forall y | 0 <= y < MaxY(img) && !Silent(img, x, y) && y !in p
      ensures |p| == MaxNotes + 1 && forall i :: 0 <= i < |p| ==> p[i] < y
    {
      var j :| 0 <= j < |all| && all[j] == y;
      assert |p| <= j;
      forall i | 0 <= i < |p|
        ensures p[i] < y
      {
        assert p[i] == all[i] && i < j;
      }
    }
  }

  /** As written the cap lets one note too many through: a column with more
      than MaxNotes non-black rows places MaxNotes + 1 notes. */
  lemma PlacedRowsExceedCap(img: Image, x: nat)
    requires x < img.width
    requires MaxNotes < MaxY(img)
    requires forall y :: 0 <= y < MaxY(img) ==> !Silent(img, x, y)
    ensures |PlacedRows(img, x)| == MaxNotes + 1
  {
    NonBlackRowsAll(img, x, MaxY(img));
  }

  /** The rows a cap of MaxNotes notes, tested before each note is added,
      would select: the topmost MaxNotes non-black rows. */
  function CappedRows(img: Image, x: nat): (p: seq<nat>)
    requires x < img.width
    ensures |p| == if |NonBlackRows(img, x, MaxY(img))| <= MaxNotes then |NonBlackRows(img, x, MaxY(img))| else MaxNotes
    ensures p <= PlacedRows(img, x)
  {
    Take(NonBlackRows(img, x, MaxY(img)), MaxNotes)
  }

  /** The intended cap holds a column with more than MaxNotes non-black rows
      to exactly MaxNotes notes, one fewer than the code places. */
  lemma CappedRowsAtCap(img: Image, x: nat)
    requires x < img.width
    requires MaxNotes < MaxY(img)
    requires forall y :: 0 <= y < MaxY(img) ==> !Silent(img, x, y)
    ensures |CappedRows(img, x)| == MaxNotes
    ensures |CappedRows(img, x)| + 1 == |PlacedRows(img, x)|
  {
    NonBlackRowsAll(img, x, MaxY(img));
  }

  /** One note: its piano key, its wave kind and its amplitude. */
  datatype Note = Note(key: int, kind: int, amplitude: real)

  /** The note pixel (x, y) plays: key 88 - y, the colour's wave kind, and
      the colour's amplitude divided by max_notes. */
  function NoteAt(img: Image, x: nat, y: nat): (n: Note)
    requires Readable(img, x, y) && y < MaxY(img)
    ensures 1 <= n.key <= NumKeys && (y == 0 ==> n.key == NumKeys)
    ensures 0.0 <= n.amplitude <= 1.0 / MaxNotes as real
    ensures n.amplitude == 0.0 <==> Silent(img, x, y)
  {
    var c := PixelAt(img, x, y);
    Note(NumKeys - y, ColorToWave(c.r, c.g, c.b), ColorToAmplitude(c.r, c.g, c.b) / MaxNotes as real)
  }

  /** Rows of column x whose pixel can be read: scanned rows whose bytes
      lie inside the pixel bytes. */
  predicate ScannedRows(img: Image, x: nat, rows: seq<nat>)
  {
    forall i :: 0 <= i < |rows| ==> rows[i] < MaxY(img) && Readable(img, x, rows[i])
  }

  /** The notes of the given rows of column x, in the same order. */
  function NotesOf(img: Image, x: nat, rows: seq<nat>): (notes: seq<Note>)
    requires ScannedRows(img, x, rows)
    ensures |notes| == |rows|
  {
    if rows == [] then []
    else NotesOf(img, x, rows[..|rows| - 1]) + [NoteAt(img, x, rows[|rows| - 1])]
  }

  /** The i-th note of some rows is the note of the i-th row. */
  lemma {:induction false} NotesOfAt(img: Image, x: nat, rows: seq<nat>)
    requires ScannedRows(img, x, rows)
    ensures forall i :: 0 <= i < |rows| ==> NotesOf(img, x, rows)[i] == NoteAt(img, x, rows[i])
  {
    if rows != [] {
      NotesOfAt(img, x, rows[..|rows| - 1]);
    }
  }

  /** A note is audible and sounds below the cap's share of full scale. */
  predicate Capped(notes: seq<Note>)
  {
    forall i :: 0 <= i < |notes| ==> 0.0 <= notes[i].amplitude <= 1.0 / MaxNotes as real
  }

  /** The notes of any scanned rows are capped and sit on keys 1 .. 88, the
      row's own key 88 - row. */
  lemma {:induction false} NotesOfKeys(img: Image, x: nat, rows: seq<nat>)
    requires ScannedRows(img, x, rows)
    ensures var notes := NotesOf(img, x, rows);
      Capped(notes)
      && forall i :: 0 <= i < |rows| ==> notes[i].key == NumKeys - rows[i] && 1 <= notes[i].key <= NumKeys
  {
    if rows != [] {
      NotesOfKeys(img, x, rows[..|rows| - 1]);
    }
  }

  /** The notes column x plays, as the source selects them. */
  function ColumnNotes(img: Image, x: nat): (notes: seq<Note>)
    requires x < img.width
    ensures |notes| == |PlacedRows(img, x)|
  {
    PlacedRowsAreTopmostNonBlack(img, x);
    NotesOf(img, x, PlacedRows(img, x))
  }

  /** The notes of column x sit on the keys of their rows, 88 - row, all on
      the keyboard, and a note placed earlier (higher up) has a higher key. */
  lemma ColumnNotesKeys(img: Image, x: nat)
    requires x < img.width
    ensures var p, notes := PlacedRows(img, x), ColumnNotes(img, x);
      |notes| == |p|
      && (forall i :: 0 <= i < |p| ==> notes[i].key == NumKeys - p[i] && 1 <= notes[i].key <= NumKeys)
      && (forall i, j :: 0 <= i < j < |p| ==> notes[j].key < notes[i].key)
  {
    PlacedRowsAreTopmostNonBlack(img, x);
    NotesOfKeys(img, x, PlacedRows(img, x));
  }

  /** A fresh, zeroed column buffer of n samples. */
  function Zeros(n: nat): (z: seq<real>)
    ensures |z| == n && forall i :: 0 <= i < n ==> z[i] == 0.0
  {
    seq(n, _ => 0.0)
  }

  /** Elementwise sum of two buffers of the same length. */
  function AddSamples(a: seq<real>, b: seq<real>): (c: seq<real>)
    requires |a| == |b|
    ensures |c| == |a| && forall i :: 0 <= i < |a| ==> c[i] == a[i] + b[i]
  {
    seq(|a|, i requires 0 <= i < |a| => a[i] + b[i])
  }

  /** The spp samples of one note, starting at time t. */
  function Render(lib: MathLib, note: Note, t: real, rate: nat, spp: nat): (o: seq<real>)
    requires spp > 0 ==> rate > 0
    ensures |o| == spp
  {
    Samples(lib, note.kind, t, KeyToFrequency(lib, note.key), note.amplitude, rate, spp)
  }

  /** The column buffer after the given notes were added into a zeroed buffer, in order. */
  function Mix(lib: MathLib, notes: seq<Note>, t: real, rate: nat, spp: nat): (buf: seq<real>)
    requires spp > 0 ==> rate > 0
    ensures |buf| == spp
  {
    if notes == [] then Zeros(spp)
    else AddSamples(Mix(lib, notes[..|notes| - 1], t, rate, spp), Render(lib, notes[|notes| - 1], t, rate, spp))
  }

  /** Placing one more row adds that row's note into the mix. */
  lemma MixPlaceRow(img: Image, lib: MathLib, x: nat, rows: seq<nat>, y: nat, t: real, rate: nat, spp: nat)
    requires ScannedRows(img, x, rows) && y < MaxY(img) && Readable(img, x, y)
    requires spp > 0 ==> rate > 0
    ensures ScannedRows(img, x, rows + [y])
    ensures Mix(lib, NotesOf(img, x, rows + [y]), t, rate, spp)
         == AddSamples(Mix(lib, NotesOf(img, x, rows), t, rate, spp), Render(lib, NoteAt(img, x, y), t, rate, spp))
  {
    var grown := rows + [y];
    assert grown[..|rows|] == rows;
    var ns := NotesOf(img, x, rows);
    var note := NoteAt(img, x, y);
    assert NotesOf(img, x, grown) == ns + [note];
    assert (ns + [note])[..|ns|] == ns;
  }

  /** Each of k capped notes adds at most 1/12 and takes away at most 1/24,
      so every mixed sample lies in [-k/24, k/12]. */
  lemma {:induction false} MixBound(lib: MathLib, notes: seq<Note>, t: real, rate: nat, spp: nat)
    requires spp > 0 ==> rate > 0
    requires SinBounded(lib) && Capped(notes)
    ensures forall i :: 0 <= i < spp ==>
      -(|notes| as real) / (2.0 * MaxNotes as real) <= Mix(lib, notes, t, rate, spp)[i] <= |notes| as real / MaxNotes as real
  {
    if notes != [] {
      var k := |notes|;
      var front := notes[..k - 1];
      MixBound(lib, front, t, rate, spp);
      var prev := Mix(lib, front, t, rate, spp);
      var last := Render(lib, notes[k - 1], t, rate, spp);
      var a := notes[k - 1].amplitude;
      assert last == Samples(lib, notes[k - 1].kind, t, KeyToFrequency(lib, notes[k - 1].key), a, rate, spp);
      forall i | 0 <= i < spp
        ensures -(k as real) / (2.0 * MaxNotes as real) <= prev[i] + last[i] <= k as real / MaxNotes as real
      {
        assert -0.5 * a <= last[i] <= a;
        assert -(|front| as real) / (2.0 * MaxNotes as real) <= prev[i] <= |front| as real / MaxNotes as real;
      }
    }
  }

  /** `(int8_t)(s * INT8_MAX)`: s * 127 truncated toward zero. */
  function Quantize(s: real): (q: int)
    ensures 0.0 <= s ==> 0 <= q && q as real <= 127.0 * s < q as real + 1.0
    ensures s < 0.0 ==> q <= 0 && q as real - 1.0 < 127.0 * s <= q as real
    ensures -1.0 <= s <= 1.0 ==> -Int8Max <= q <= Int8Max
  {
    var y := s * Int8Max as real;
    if y >= 0.0 then y.Floor else -((-y).Floor)
  }

  /** The output bytes of a column buffer, one per sample. */
  function QuantizeAll(buf: seq<real>): (q: seq<int>)
    ensures |q| == |buf| && forall i :: 0 <= i < |buf| ==> q[i] == Quantize(buf[i])
  {
    seq(|buf|, i requires 0 <= i < |buf| => Quantize(buf[i]))
  }

  /** The spp output bytes of column x, sounding from time t. */
  function ColumnBytes(img: Image, lib: MathLib, x: nat, t: real, rate: nat, spp: nat): (bytes: seq<int>)
    requires ScanReadsInBounds(img, x) && (spp > 0 ==> rate > 0)
    ensures |bytes| == spp
  {
    QuantizeAll(Mix(lib, ColumnNotes(img, x), t, rate, spp))
  }

  /** A column whose scanned rows are all black is spp zero bytes. */
  lemma BlackColumnIsSilence(img: Image, lib: MathLib, x: nat, t: real, rate: nat, spp: nat)
    requires ScanReadsInBounds(img, x) && (spp > 0 ==> rate > 0)
    requires forall y :: 0 <= y < MaxY(img) ==> Silent(img, x, y)
    ensures ColumnBytes(img, lib, x, t, rate, spp) == seq(spp, _ => 0)
  {
    NonBlackRowsNone(img, x, MaxY(img));
    assert ColumnNotes(img, x) == [];
  }

  /** Every mixed sample of a column, as the source selects its notes, lies
      in [-13/24, 13/12]: past 1 once all MaxNotes + 1 notes are loud. */
  lemma ColumnMixBound(img: Image, lib: MathLib, x: nat, t: real, rate: nat, spp: nat)
    requires x < img.width && (spp > 0 ==> rate > 0)
    requires SinBounded(lib)
    ensures var buf := Mix(lib, ColumnNotes(img, x), t, rate, spp);
      forall i :: 0 <= i < spp ==>
        -(MaxNotes + 1) as real / (2.0 * MaxNotes as real) <= buf[i] <= (MaxNotes + 1) as real / MaxNotes as real
  {
    PlacedRowsAreTopmostNonBlack(img, x);
    var rows := PlacedRows(img, x);
    NotesOfKeys(img, x, rows);
    MixBound(lib, ColumnNotes(img, x), t, rate, spp);
  }

  /** For a sin that is 1 everywhere, sine notes of amplitude 1/12 each add
      1/12 to every sample. */
  lemma {:induction false} MixOfPeaks(lib: MathLib, notes: seq<Note>, t: real, rate: nat, spp: nat)
    requires spp > 0 ==> rate > 0
    requires forall r: real :: lib.sin(r) == 1.0
    requires forall i :: 0 <= i < |notes| ==> notes[i].kind == WaveSine && notes[i].amplitude == 1.0 / MaxNotes as real
    ensures forall i :: 0 <= i < spp ==> Mix(lib, notes, t, rate, spp)[i] == |notes| as real / MaxNotes as real
  {
    if notes != [] {
      var k := |notes|;
      MixOfPeaks(lib, notes[..k - 1], t, rate, spp);
      var last := notes[k - 1];
      var f := KeyToFrequency(lib, last.key);
      assert Render(lib, last, t, rate, spp) == Samples(lib, WaveSine, t, f, 1.0 / MaxNotes as real, rate, spp);
    }
  }

  /** The [-1, 1] bound that a cap of MaxNotes notes gives does not follow
      for the code as written: a column of pure red pixels places 13 sine
      notes, and a sin bounded by 1 that is 1 everywhere (SinBounded allows
      it) mixes each sample to 13/12, which converts to 137, past INT8_MAX.
      A real sin cannot peak for all 13 keys at once (keys 88 and 76 are an
      octave apart), so this is what the model's assumptions allow, not a
      value the program reaches. */
  lemma RedColumnOverflows(img: Image, lib: MathLib, x: nat, t: real, rate: nat, spp: nat)
    requires x < img.width && MaxNotes < MaxY(img) && (spp > 0 ==> rate > 0)
    requires forall y :: 0 <= y < MaxY(img) ==> Readable(img, x, y) && PixelAt(img, x, y) == Rgb(255, 0, 0)
    requires forall r: real :: lib.sin(r) == 1.0
    ensures SinBounded(lib)
    ensures ScanReadsInBounds(img, x)
    ensures forall i :: 0 <= i < spp ==> ColumnBytes(img, lib, x, t, rate, spp)[i] == 137
  {
    PlacedRowsExceedCap(img, x);
    PlacedRowsAreTopmostNonBlack(img, x);
    var rows := PlacedRows(img, x);
    var notes := ColumnNotes(img, x);
    NotesOfAt(img, x, rows);
    forall i | 0 <= i < |notes|
      ensures notes[i].kind == WaveSine && notes[i].amplitude == 1.0 / MaxNotes as real
    {
      assert PixelAt(img, x, rows[i]) == Rgb(255, 0, 0);
    }
    MixOfPeaks(lib, notes, t, rate, spp);
    var buf := Mix(lib, notes, t, rate, spp);
    forall i | 0 <= i < spp
      ensures QuantizeAll(buf)[i] == 137
    {
      assert buf[i] == 13.0 / 12.0;
      assert Quantize(13.0 / 12.0) == 137;
    }
  }

  /** At most MaxNotes capped notes mix into samples in [-1/2, 1], whose
      output bytes all lie in the signed 8-bit range. */
  lemma MixFitsInt8(lib: MathLib, notes: seq<Note>, t: real, rate: nat, spp: nat)
    requires spp > 0 ==> rate > 0
    requires SinBounded(lib) && Capped(notes) && |notes| <= MaxNotes
    ensures var q := QuantizeAll(Mix(lib, notes, t, rate, spp));
      forall i :: 0 <= i < spp ==> -Int8Max <= q[i] <= Int8Max
  {
    MixBound(lib, notes, t, rate, spp);
    var buf := Mix(lib, notes, t, rate, spp);
    var k := |notes| as real;
    assert k / 12.0 <= 1.0 && -1.0 <= -k / 24.0;
    forall i | 0 <= i < spp
      ensures -1.0 <= buf[i] <= 1.0
    {
      assert -k / 24.0 <= buf[i] <= k / 12.0;
    }
  }

  /** With the cap applied as its comment intends (at most MaxNotes notes),
      every output byte of the column lies in the signed 8-bit range. */
  lemma CappedColumnFitsInt8(img: Image, lib: MathLib, x: nat, t: real, rate: nat, spp: nat)
    requires x < img.width && (spp > 0 ==> rate > 0)
    requires SinBounded(lib)
    ensures ScannedRows(img, x, CappedRows(img, x))
    ensures var q := QuantizeAll(Mix(lib, NotesOf(img, x, CappedRows(img, x)), t, rate, spp));
      forall i :: 0 <= i < spp ==> -Int8Max <= q[i] <= Int8Max
  {
    PlacedRowsAreTopmostNonBlack(img, x);
    var rows := CappedRows(img, x);
    assert ScannedRows(img, x, rows);
    NotesOfKeys(img, x, rows);
    MixFitsInt8(lib, NotesOf(img, x, rows), t, rate, spp);
  }

  /** Time at which column x starts: x columns of spp / rate seconds each. */
  function ColumnTime(x: nat, rate: nat, spp: nat): (ct: real)
    requires rate > 0
    ensures ct * rate as real == (x * spp) as real
  {
    x as real * (spp as real / rate as real)
  }

  /** Each column starts spp / rate seconds after the one before it. */
  lemma ColumnTimeStep(x: nat, rate: nat, spp: nat)
    requires rate > 0
    ensures ColumnTime(x + 1, rate, spp) == ColumnTime(x, rate, spp) + spp as real / rate as real
  {
    var q := spp as real / rate as real;
    assert (x + 1) as real * q == x as real * q + q;
  }

  /** The output bytes of columns 0 .. cols-1, one block per column. */
  function Columns(img: Image, lib: MathLib, rate: nat, spp: nat, cols: nat): (blocks: seq<seq<int>>)
    requires ReadsInBounds(img) && rate > 0 && cols <= img.width
    ensures |blocks| == cols
    ensures forall x :: 0 <= x < cols ==> |blocks[x]| == spp
  {
    seq(cols, x requires 0 <= x < cols => ColumnBytes(img, lib, x, ColumnTime(x, rate, spp), rate, spp))
  }

  /** The bytes written for columns 0 .. cols-1: spp bytes per column. */
  function Stream(img: Image, lib: MathLib, rate: nat, spp: nat, cols: nat): (out: seq<int>)
    requires ReadsInBounds(img) && rate > 0 && cols <= img.width
    ensures |out| == cols * spp
  {
    ConcatLength(Columns(img, lib, rate, spp, cols), spp);
    OffsetIsProduct(cols, spp);
    Concat(Columns(img, lib, rate, spp, cols))
  }

  /** Column x's bytes are the x-th block of spp bytes of the stream: the
      columns are written whole and in order. */
  lemma StreamColumn(img: Image, lib: MathLib, rate: nat, spp: nat, cols: nat, x: nat)
    requires ReadsInBounds(img) && rate > 0 && cols <= img.width && x < cols
    ensures x * spp + spp <= |Stream(img, lib, rate, spp, cols)|
    ensures Stream(img, lib, rate, spp, cols)[x * spp .. x * spp + spp]
         == ColumnBytes(img, lib, x, ColumnTime(x, rate, spp), rate, spp)
  {
    ConcatBlock(Columns(img, lib, rate, spp, cols), spp, x);
    OffsetIsProduct(x, spp);
  }

  /** The stream grows column by column: one more column appends its block. */
  lemma StreamStep(img: Image, lib: MathLib, rate: nat, spp: nat, cols: nat)
    requires ReadsInBounds(img) && rate > 0 && cols < img.width
    ensures Stream(img, lib, rate, spp, cols + 1)
         == Stream(img, lib, rate, spp, cols) + ColumnBytes(img, lib, cols, ColumnTime(cols, rate, spp), rate, spp)
  {
    var blocks := Columns(img, lib, rate, spp, cols + 1);
    assert blocks[..cols] == Columns(img, lib, rate, spp, cols);
  }
}
