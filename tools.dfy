/**
 * engine/tools.py: the drawing command of the command pattern. A command
 * keeps its own copies of a layer's pixels before and after a drawing
 * operation and writes one or the other back into the layer's buffer.
 */
module Tools {
  import opened Layers

  /** `target[:] = source` for two buffers of one shape: every byte of `target` is overwritten in place. */
  method Overwrite(target: array<byte>, source: array<byte>)
    requires target.Length == source.Length && target != source
    modifies target
    ensures target[..] == source[..]
  {
    for i := 0 to target.Length
      invariant target[..i] == source[..i]
    {
      target[i] := source[i];
    }
  }

  /** `ndarray.copy()`: a fresh buffer with the same bytes. */
  method Copy(a: array<byte>) returns (b: array<byte>)
    ensures fresh(b) && b[..] == a[..]
  {
    b := new byte[a.Length];
    Overwrite(b, a);
  }

  class DrawCommand {
    const layer: Layer
    const prevState: array<byte>
    const newState: array<byte>

    /** The stored states are buffers of the command's own, never the layer's buffer or each other. */
    predicate Valid() {
      prevState != layer.pixels && newState != layer.pixels && prevState != newState
    }

    /** Both states have the shape of the layer's buffer, so that writing them back is defined. */
    predicate Ready() {
      Valid() && prevState.Length == layer.pixels.Length && newState.Length == layer.pixels.Length
    }

    /** `DrawCommand(layer, prev_state, new_state)`: keeps the layer and copies of both states. */
    constructor (layer: Layer, prevState: array<byte>, newState: array<byte>)
      ensures this.layer == layer && Valid()
      ensures fresh(this.prevState) && fresh(this.newState)
      ensures this.prevState[..] == prevState[..] && this.newState[..] == newState[..]
    {
      this.layer := layer;
      var prev := Copy(prevState);
      var next := Copy(newState);
      this.prevState := prev;
      this.newState := next;
    }

    /**
     * `execute`: the layer's pixels become the state after drawing. The result
     * does not depend on the pixels before the call, so executing twice is the
     * same as executing once.
     */
    method Execute()
      requires Ready()
      modifies layer.pixels
      ensures layer.pixels[..] == newState[..]
      ensures prevState[..] == old(prevState[..]) && newState[..] == old(newState[..])
    {
      Overwrite(layer.pixels, newState);
    }

    /** `undo`: the layer's pixels become the state before drawing, whatever they were. */
    method Undo()
      requires Ready()
      modifies layer.pixels
      ensures layer.pixels[..] == prevState[..]
      ensures prevState[..] == old(prevState[..]) && newState[..] == old(newState[..])
    {
      Overwrite(layer.pixels, prevState);
    }
  }

  /** Executing a command and then undoing it leaves the layer as it was before the drawing. */
  method ExecuteThenUndo(c: DrawCommand)
    requires c.Ready()
    modifies c.layer.pixels
    ensures c.layer.pixels[..] == c.prevState[..]
    ensures c.prevState[..] == old(c.prevState[..]) && c.newState[..] == old(c.newState[..])
  {
    c.Execute();
    c.Undo();
  }
}
