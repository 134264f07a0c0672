/** The pixel-colour helpers: how loud a note is and which wave it uses. */
module Colour {
  import Waves

  /** One colour channel as an unsigned byte. The source reads the channels
      through a plain `char` and hands them back as `unsigned char`, which
      restores the same byte, so the model keeps them as 0 .. 255 throughout. */
  newtype byte = x: int | 0 <= x < 256

  /** The silence test `!r && !g && !b`: pure black. */
  function IsBlack(r: byte, g: byte, b: byte): (black: bool)
    ensures black <==> r as int + g as int + b as int == 0
  {
    r == 0 && g == 0 && b == 0
  }

  /** The largest of the three channels, chosen in two comparisons as in
      color_to_amplitude. */
  function MaxChannel(r: byte, g: byte, b: byte): (x: byte)
    ensures r <= x && g <= x && b <= x
    ensures x == r || x == g || x == b
  {
    var x := if r > g then r else g;
    if x > b then x else b
  }

  /** color_to_amplitude: the largest channel divided by 255. It lies in
      [0, 1], reaches 1 exactly when some channel is 255, and is 0 exactly
      for black. */
  function ColorToAmplitude(r: byte, g: byte, b: byte): (a: real)
    ensures 0.0 <= a <= 1.0
    ensures a == 0.0 <==> IsBlack(r, g, b)
    ensures a == 1.0 <==> (r == 255 || g == 255 || b == 255)
  {
    (MaxChannel(r, g, b) as int) as real / 255.0
  }

  /** color_to_wave: red-dominant colours play a sine; every other colour,
      ties included, a sawtooth. */
  function ColorToWave(r: byte, g: byte, b: byte): (k: int)
    ensures k == Waves.WaveSine <==> r > g && r > b
    ensures k != Waves.WaveSine ==> k == Waves.WaveSaw
  {
    if r > g && r > b then Waves.WaveSine else Waves.WaveSaw
  }
}
