# img-to-sound, modelled in Dafny

`img_to_sound` turns an image into signed 8-bit audio. Each image column
becomes a slice of `spp` samples. Each of the top 88 rows of a column is a
piano key: row 0 is key 88, the highest, and row y is key 88 - y. A black
pixel is silence. Any other pixel plays its key as a note. The note's
amplitude is the pixel's largest channel divided by 255, and then by 12.
Its wave is a sine when red strictly dominates, and a sawtooth otherwise.
The notes of a column are summed into a zeroed buffer. The buffer is
scaled by 127, truncated to `int8_t` and written out, column after column.

The project has five modules:

- `Waves` (waves.dfy): the two oscillators, the key-to-frequency mapping,
  and `generate_samples`. The last is a function `Samples` plus the method
  `GenerateSamples`, which is proved to fill its array with it.
- `Colour` (colour.dfy): `color_to_amplitude`, `color_to_wave` and the
  black-pixel test.
- `Column` (column.dfy): what one column becomes, stated as functions:
  - which rows are placed as notes (`PlacedRows`);
  - what each note is (`NoteAt`);
  - the mixed buffer (`Mix`);
  - the output bytes (`ColumnBytes`);
  - the whole output stream (`Stream`).
  The lemmas about them live here too.
- `Blocks` (blocks.dfy): equal-size blocks laid end to end. It is used to
  locate each column's bytes in the stream.
- `Synth` (synth.dfy): the loops of `process` as imperative methods over
  arrays. These are the row scan, note placement, accumulation, the
  silence loop, quantization and the column loop. Each method is proved
  to compute exactly the `Column` function that specifies it.

Floating point is modelled by exact reals. `sin` and `powf(2, .)` are not
defined. They arrive as a `MathLib` value, so results hold for any
implementation. Where a bound needs it, the model assumes
`SinBounded(lib)`, that is, `sin` stays within [-1, 1]. The octave lemma
assumes `Exp2Doubles(lib)`.

The decoded image is an `Image` value with these fields:

- `width`;
- `height`;
- `channels`: the channel count the file had, which is `n` in the source;
- `data`: the pixel bytes.

`Loaded` states what the decoder hands over when asked for three
components: `3 * width * height` bytes.

The model follows the code where the code and its own comments or
buffers disagree:

- Cap: the comment on line 126 calls max_notes = 12 the maximum number
  of notes at once, inclusive. The code tests `notes > max_notes` before
  adding a note, so up to 13 notes sound. The model places 13
  (`PlacedRows`).
- Pixel address: line 107 asks `stbi_load` for 3 components, so the
  buffer holds 3 bytes per pixel and pixel (x, y) starts at
  `(y * w + x) * 3`. The code reads from `y * w * n + x`, with n the
  file's channel count, and that is what `PixelIndex` uses.

The scan of a column reads row y only while at most 12 non-black rows
lie above it; after that the loop breaks. `ScanReadsInBounds` asks that
exactly these reads lie inside the pixel bytes. `Silent` counts a pixel
whose bytes lie past the end as playing nothing; in a column that meets
`ScanReadsInBounds` the scan never reads such a pixel.

## Model

| member | source | states |
|---|---|---|
| Waves.KeyToFrequency | img_to_sound.c:16-20 | key 49 is A4 at 440 Hz whenever powf(2, 0) = 1; keys 49 and 61 sound at 440 * 2^0 and 440 * 2^1 |
| Waves.KeyOctave | img_to_sound.c:16-20 | twelve keys up doubles the frequency, whenever powf(2, p+1) = 2 * powf(2, p) |
| Waves.Saw | img_to_sound.c:25-31 | the sawtooth always lies in [-0.5, 0.5) |
| Waves.SawPeriodic | img_to_sound.c:25-31 | the sawtooth repeats with period 1 / f |
| Waves.Sine | img_to_sound.c:33-38 | the offset sine lies in [0, 1] whenever sin is bounded by 1 |
| Waves.Wave | img_to_sound.c:77-86 | whichever kind is selected (sine for WAVE_SINE, sawtooth for everything else), the value lies in [-0.5, 1] |
| Waves.ScaledWaveBound | img_to_sound.c:88 | scaling a wave value by an amplitude a >= 0 keeps it within [-a/2, a] |
| Waves.SampleTime | img_to_sound.c:71-75 | sample i sounds i sample periods after t: (time - t) * r = i |
| Waves.Samples | img_to_sound.c:66-91 | s samples; with a >= 0 and bounded sin, each lies in [-a/2, a] |
| Waves.GenerateSamples | img_to_sound.c:66-91 | o[i] = a * wave(t + i/r, f) for every i < s; the rest of the array is untouched |
| Colour.IsBlack | img_to_sound.c:143 | a pixel is black exactly when its three channels sum to 0 |
| Colour.MaxChannel | img_to_sound.c:44-46 | the result is one of r, g, b and is at least each of them |
| Colour.ColorToAmplitude | img_to_sound.c:42-48 | the amplitude lies in [0, 1]; it is 0 exactly for black and 1 exactly when some channel is 255 |
| Colour.ColorToWave | img_to_sound.c:50-57 | sine exactly when r > g and r > b; sawtooth otherwise, ties included |
| Column.MaxY | img_to_sound.c:127 | the number of scanned rows is min(h, 88) |
| Column.PixelIndex | img_to_sound.c:139 | pixel (x, y) is read x bytes into the y-th run of w*n bytes |
| Column.ThreeChannelReadBound | img_to_sound.c:139-142 | with n <= 3, the byte y*w*n + x + 2 lies before 3*w*h |
| Column.ReadsInBoundsUpToThreeChannels | img_to_sound.c:139-142 | with at most 3 channels, every read of every column's scan stays inside the 3*w*h decoded bytes |
| Column.CapStopsReads | img_to_sound.c:132-142 | when the first 13 rows of a column are non-black, the scan breaks before reading any row below them, so it reads in bounds |
| Column.FourChannelTopRowsBound | img_to_sound.c:139-142 | with n = 4 and h >= 17, the reads of rows 0..12 lie before 3*w*h |
| Column.FourChannelsTallImageReadsInBounds | img_to_sound.c:132-142 | a 4-channel image of at least 17 rows with no zero byte (an all-white RGBA image, say) is scanned entirely in bounds |
| Column.FourChannelReadBound | img_to_sound.c:139-142 | with n = 4 and 3..16 rows, the last column's read of row min(h-1, 12) reaches 3*w*h or beyond |
| Column.FourChannelsReadPastEnd | img_to_sound.c:132-142 | with 4 channels and 3..16 rows, the scan of the last column reads past the decoded bytes: it always reaches row min(h-1, 12), whatever the colours |
| Column.RgbIndexInBounds | img_to_sound.c:139-142 | the intended address (y*w + x)*3 of every pixel lies inside the decoded bytes, for any channel count |
| Column.PixelAt | img_to_sound.c:139-142 | the three bytes read for pixel (x, y); in the first column of a three-channel image they are the pixel's own bytes at (y*w + x)*3 |
| Column.Silent | img_to_sound.c:143-147 | a pixel plays nothing when black; a pixel whose bytes lie past the end is also counted silent, a choice the scan never observes under ScanReadsInBounds |
| Column.RgbIndex | img_to_sound.c:139 | the corrected address is a multiple of 3, the red byte of pixel number y*w + x |
| Column.PixelIndexMissesPixel | img_to_sound.c:139 | with 3 channels and x > 0, the address read is 2x bytes before pixel (x, y)'s red byte |
| Column.NonBlackRows | img_to_sound.c:132-147 | the scan finds at most one non-black row per scanned row |
| Column.NonBlackRowsSpec | img_to_sound.c:132-147 | the non-black rows are listed exactly once each, in increasing order, and black rows never appear |
| Column.NonBlackRowsStep | img_to_sound.c:143-147 | scanning one more row appends it exactly when its pixel is not black |
| Column.NonBlackRowsPrefix | img_to_sound.c:132 | scanning further down only appends rows |
| Column.NonBlackRowsAll | img_to_sound.c:143-149 | when no scanned row is black, every one of them counts |
| Column.NonBlackRowsNone | img_to_sound.c:143-147 | when every scanned row is black, nothing counts |
| Column.Take | img_to_sound.c:134-137 | the kept rows are a prefix of the list, of length min(\|rows\|, n) |
| Column.PlacedRows | img_to_sound.c:132-149 | the rows the code places are the first min(k, 13) of the k non-black rows |
| Column.ScanStopsAtPlacedRows | img_to_sound.c:132-137 | the scan ends with exactly the placed rows, whether it ran out of rows or broke at the cap |
| Column.PlacedRowsAreTopmostNonBlack | img_to_sound.c:126-149 | at most 13 rows are placed, all non-black and top to bottom; a non-black row is left out only when 13 rows above it were placed |
| Column.PlacedRowsExceedCap | img_to_sound.c:126-137 | a column with more than 12 non-black rows places 13 notes, one more than max_notes |
| Column.CappedRows | img_to_sound.c:126 | the intended cap keeps the first min(k, 12) of the k non-black rows, a prefix of the rows the code places |
| Column.CappedRowsAtCap | img_to_sound.c:126-137 | with more than 12 non-black rows the intended cap keeps exactly 12, one fewer than the code places |
| Column.NoteAt | img_to_sound.c:149-153 | key 88 - y lies in 1..88 and is 88 for row 0; the amplitude lies in [0, 1/12] and is 0 exactly for black |
| Column.NotesOf | img_to_sound.c:149-153 | one note per placed row |
| Column.NotesOfAt | img_to_sound.c:149-153 | the i-th note is the note of the i-th placed row |
| Column.NotesOfKeys | img_to_sound.c:150-152 | each note has its row's key 88 - row, in 1..88, and an amplitude within the 1/12 share |
| Column.ColumnNotes | img_to_sound.c:149-153 | a column plays one note per placed row |
| Column.ColumnNotesKeys | img_to_sound.c:132-153 | a column's notes have keys 88 - row within 1..88, and the keys strictly decrease in placement order |
| Column.Zeros | img_to_sound.c:130 | calloc gives spp samples, all zero |
| Column.AddSamples | img_to_sound.c:156-159 | sample i of the sum is a[i] + b[i] |
| Column.Render | img_to_sound.c:151-155 | a note renders to spp samples |
| Column.Mix | img_to_sound.c:130-159 | the mixed column buffer holds spp samples |
| Column.MixPlaceRow | img_to_sound.c:149-159 | placing one more row adds its note's samples into the buffer and changes nothing else |
| Column.MixBound | img_to_sound.c:152-159 | k capped notes mix into samples within [-k/24, k/12] |
| Column.Quantize | img_to_sound.c:174 | s*127 is truncated toward zero; inputs in [-1, 1] give bytes in [-127, 127] |
| Column.QuantizeAll | img_to_sound.c:172-175 | one byte per buffer sample, each the quantized sample |
| Column.ColumnBytes | img_to_sound.c:128-176 | a column writes exactly spp bytes |
| Column.BlackColumnIsSilence | img_to_sound.c:163-169 | a column whose scanned rows are all black is spp zero bytes |
| Column.ColumnMixBound | img_to_sound.c:126-159 | as written, mixed samples lie within [-13/24, 13/12]; the [-1, 1] bound the cap was meant to give no longer follows |
| Column.MixOfPeaks | img_to_sound.c:149-159 | for a sin equal to 1 everywhere, k sine notes of amplitude 1/12 mix to k/12 |
| Column.RedColumnOverflows | img_to_sound.c:126-175 | the [-1, 1] bound does not follow from the model's assumptions as written: for a sin bounded by 1 that is 1 everywhere, a column of pure red pixels mixes 13 sine notes to 13/12 and writes the byte 137, past INT8_MAX |
| Column.MixFitsInt8 | img_to_sound.c:152-175 | at most 12 capped notes give output bytes within [-127, 127] |
| Column.CappedColumnFitsInt8 | img_to_sound.c:126-175 | under the intended cap of 12 notes, every output byte of a column lies within [-127, 127] |
| Column.ColumnTime | img_to_sound.c:100 | column x starts after x*spp samples: time * rate = x * spp |
| Column.ColumnTimeStep | img_to_sound.c:179 | each column starts spp/rate seconds after the one before |
| Column.Columns | img_to_sound.c:128-180 | one block of spp bytes per column |
| Column.Stream | img_to_sound.c:128-180 | the output holds width * spp bytes |
| Column.StreamColumn | img_to_sound.c:128-180 | bytes x*spp .. x*spp+spp of the output are column x's bytes, sounding from x * spp / rate |
| Column.StreamStep | img_to_sound.c:128-180 | one more column appends its spp bytes at the end |
| Blocks.OffsetIsProduct | img_to_sound.c:176 | the x-th block of k bytes starts at x*k |
| Blocks.OffsetMono | img_to_sound.c:176 | an earlier block ends before a later one starts |
| Blocks.Concat | img_to_sound.c:176 | the blocks written one after another: the output is empty with no block and ends with the last block written |
| Blocks.ConcatLength | img_to_sound.c:176 | n blocks of k bytes make n*k bytes |
| Blocks.ConcatBlock | img_to_sound.c:176 | block x sits at offset x*k of the concatenation |
| Synth.AddInto | img_to_sound.c:156-159 | col[i] becomes old col[i] + place[i] for every i |
| Synth.Silence | img_to_sound.c:163-169 | every sample of the buffer becomes 0 |
| Synth.QuantizeBuffer | img_to_sound.c:171-175 | byte i is the quantized buffer sample i |
| Synth.ReadPixel | img_to_sound.c:139-142 | the three channels read are the bytes at y*w*n + x and the two after it |
| Synth.PlaceNote | img_to_sound.c:149-160 | the buffer gains the samples of the note with key 88 - y and with the pixel's wave and amplitude/12 |
| Synth.ScanRow | img_to_sound.c:139-160 | a note is placed exactly when the pixel is not black; it is then added into the buffer, and a black pixel leaves the buffer unchanged |
| Synth.ScanRows | img_to_sound.c:131-161 | the count returned is the number of placed rows; the buffer is the zeroed buffer plus exactly their notes' samples |
| Synth.SynthesizeColumn | img_to_sound.c:128-178 | the bytes written for column x are ColumnBytes of that column at time t |
| Synth.Process | img_to_sound.c:123-180 | the output is every column's bytes in order, width * spp bytes in all, with column x sounding from x * spp / rate |

## Left out

- Image decoding (`stbi_load`, `stbi_image_free`) and file handling
  (`fopen`, `fwrite`, `fclose`, the early error returns) are I/O. The
  image comes in as an `Image` value. `Loaded` states the decoder's
  promise of three bytes per pixel. The bytes written are returned as a
  sequence.
- `printf` and `fprintf` diagnostics are not modelled, nor is `main` and
  its argument checks. `main` supplies rate 48000 and spp 1500. The model
  takes any rate > 0 and any spp.
- `sin` and `powf` are `MathLib` parameters. `floorf` is the exact floor
  of a real.
- Single-precision rounding is not modelled. That covers the float time
  step `t += tpp`, `1.0 / r`, and the products and sums.
- The `assert(!isnan(...))` checks are not modelled: reals have no NaN.
- `malloc`, `calloc` and `free` are not modelled. Buffers are fresh Dafny
  arrays, and a failed allocation is not modelled.
- Synth.Process requires `ReadsInBounds(img)`. Synth.SynthesizeColumn and
  Synth.ScanRows require `ScanReadsInBounds(img, x)`. Synth.ReadPixel
  requires that its own three bytes lie inside the data. Each demands only
  the reads the loop makes, since reading past the end is undefined
  behaviour in C. FourChannelsReadPastEnd shows inputs that break it, and
  FourChannelsTallImageReadsInBounds shows 4-channel inputs that meet it.
- Waves.GenerateSamples requires rate > 0 when s > 0. The source divides
  by r.
- Column.RedColumnOverflows: proved for a sin that is 1 everywhere, which
  no real sine is. A pure red column places keys 88 down to 76, and keys 88
  and 76 are an octave apart, so a real sin cannot peak on both at once.
  The real peak of such a column is estimated at about 1.073, which gives
  byte 136 and is still past INT8_MAX. That estimate is not proved here,
  since `sin` is a parameter of the model.
- Column.Quantize: the conversion to `int8_t` of a value outside
  [-128, 127] is undefined in C. The model returns the truncated integer
  unwrapped.
- The shadowing of `w` inside the row loop (line 153) is not modelled.
  The index on line 139 always uses the image width, and the model does
  too.
- Reading the channels through a plain `char` is not modelled. The value
  passes back to `unsigned char` unchanged, so the model keeps bytes.

## Findings

| source | as written | input that shows it | evidently intended | confidence | as-written member | corrected member |
|---|---|---|---|---|---|---|
| img_to_sound.c:126-137 | the cap test `notes > max_notes` runs before a note is added, so 13 notes sound, and the [-1, 1] bound that 12 notes give no longer follows | a column of 13 or more pure red (255, 0, 0) pixels: with a sin bounded by 1 that is 1 everywhere, the sample is 13/12 and converts to 137; with a real sin the keys 88 and 76 cannot peak together, and the peak is estimated (not proved) at about 1.073, byte 136 | at most max_notes = 12 notes (the comment says inclusive), keeping every sample within [-1, 1] | not executed | Column.RedColumnOverflows | Column.CappedColumnFitsInt8 |
| img_to_sound.c:139 | the pixel index is `y * w * n + x`, while the decoded buffer holds 3 bytes per pixel; with n = 3 it reads the wrong bytes for x > 0, and with n = 4 it reads past the buffer | a 4-channel (RGBA) image of width 1 and height 3: the last read is at 4*2+0+2 = 10 >= 9 bytes | `(y * w + x) * 3` | not executed | Column.FourChannelsReadPastEnd | Column.RgbIndexInBounds |

`Synth.Process` models the loops as written, with the 13-note cap and the
index of line 139. The corrected definitions are `CappedRows` and
`RgbIndex`. The intended property of each is proved beside the as-written
behaviour.
