/**
 * engine/layer.py: one raster layer, an RGBA pixel buffer with a name and a
 * visibility flag. The (height, width, 4) numpy array of unsigned bytes is a
 * flat array of height * width * 4 bytes.
 */
module Layers {
  /** A numpy uint8. */
  newtype byte = x: int | 0 <= x < 256

  class Layer {
    const pixels: array<byte>
    var visible: bool
    var name: string

    /** `Layer(width, height)`: a fresh all-zero buffer, visible, named "Layer". */
    constructor (width: nat, height: nat)
      ensures fresh(pixels) && pixels.Length == height * width * 4
      ensures forall i :: 0 <= i < pixels.Length ==> pixels[i] == 0
      ensures visible && name == "Layer"
    {
      pixels := new byte[height * width * 4](_ => 0);
      visible := true;
      name := "Layer";
    }
  }
}
