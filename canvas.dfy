/**
 * engine/canvas.py, layer bookkeeping: an ordered list of layers and an
 * optional index of the active one.
 */
module Canvases {
  import opened Wrappers
  import opened Layers

  /** The character of a decimal digit. */
  function DigitChar(d: nat): (c: char)
    requires d < 10
    ensures '0' <= c <= '9'
  {
    "0123456789"[d]
  }

  /** The value of a decimal digit character. */
  function DigitValue(c: char): (d: nat)
    requires '0' <= c <= '9'
    ensures d < 10 && DigitChar(d) == c
  {
    (c as int - '0' as int) as nat
  }

  predicate IsDigits(s: string)
  {
    forall i :: 0 <= i < |s| ==> '0' <= s[i] <= '9'
  }

  /** Python's `str(n)` for a natural number: its decimal digits, no leading zero. */
  function Decimal(n: nat): (s: string)
    ensures |s| >= 1 && IsDigits(s)
    ensures s[0] == '0' <==> n == 0
    decreases n
  {
    if n < 10 then [DigitChar(n)] else Decimal(n / 10) + [DigitChar(n % 10)]
  }

  /** The number a string of decimal digits denotes. */
  function DigitsValue(s: string): nat
    requires IsDigits(s)
    decreases |s|
  {
    if s == [] then 0 else 10 * DigitsValue(s[..|s| - 1]) + DigitValue(s[|s| - 1])
  }

  /** `Decimal` writes `n` in base ten: reading its digits back gives `n`. */
  lemma {:induction false} DecimalRoundTrip(n: nat)
    ensures DigitsValue(Decimal(n)) == n
    decreases n
  {
    var s := Decimal(n);
    if n < 10 {
      assert s[..0] == [];
    } else {
      var high, low := Decimal(n / 10), DigitChar(n % 10);
      assert s == high + [low];
      assert s[..|s| - 1] == high;
      assert DigitValue(low) == n % 10;
      DecimalRoundTrip(n / 10);
    }
  }

  /** The name `add_layer` gives: `name` when it is truthy, else "Layer <count>". */
  function LayerName(name: Option<string>, count: nat): string
  {
    if name.None? || name.value == "" then "Layer " + Decimal(count) else name.value
  }

  /** Default names of layers added at different counts differ. */
  lemma DefaultNamesDistinct(i: nat, j: nat)
    requires LayerName(None, i) == LayerName(None, j)
    ensures i == j
  {
    var p := "Layer ";
    assert Decimal(i) == LayerName(None, i)[|p|..];
    assert Decimal(j) == LayerName(None, j)[|p|..];
    DecimalRoundTrip(i);
    DecimalRoundTrip(j);
  }

  class Canvas {
    const width: nat
    const height: nat
    var layers: seq<Layer>
    var activeLayerIndex: Option<nat>

    /** There is an active layer exactly when there are layers, and it is one of them. */
    ghost predicate Valid()
      reads this
    {
      (activeLayerIndex.None? <==> layers == []) &&
      (activeLayerIndex.Some? ==> activeLayerIndex.value < |layers|)
    }

    /** `Canvas(width, height)`: no layers and no active layer. */
    constructor (width: nat, height: nat)
      ensures this.width == width && this.height == height
      ensures layers == [] && activeLayerIndex == None
      ensures Valid()
    {
      this.width := width;
      this.height := height;
      layers := [];
      activeLayerIndex := None;
    }

    /**
     * `add_layer(name=None)`: append a fresh zeroed layer of the canvas size,
     * named `name` or "Layer <previous count>", and make it active.
     */
    method AddLayer(name: Option<string> := None)
      requires Valid()
      modifies this
      ensures Valid()
      ensures |layers| == |old(layers)| + 1 && layers[..|old(layers)|] == old(layers)
      ensures var l := layers[|layers| - 1];
        fresh(l) && fresh(l.pixels) && l.pixels.Length == height * width * 4 &&
        (forall i :: 0 <= i < l.pixels.Length ==> l.pixels[i] == 0) && l.visible && l.name == LayerName(name, |old(layers)|)
      ensures activeLayerIndex == Some(|layers| - 1)
    {
      var layer := new Layer(width, height);
      layer.name := LayerName(name, |layers|);
      layers := layers + [layer];
      activeLayerIndex := Some(|layers| - 1);
    }

    /**
     * `delete_layer(index)`: an index out of range changes nothing. Otherwise
     * that layer is removed and the active index becomes None when no layer
     * is left, else the smaller of `index` and the new last index.
     */
    method DeleteLayer(index: int)
      requires Valid()
      modifies this
      ensures Valid()
      ensures !(0 <= index < |old(layers)|) ==>
        layers == old(layers) && activeLayerIndex == old(activeLayerIndex)
      ensures 0 <= index < |old(layers)| ==>
        layers == old(layers[..index] + layers[index + 1..]) &&
        activeLayerIndex == (if layers == [] then None else Some(if index < |layers| then index else |layers| - 1))
    {
      if 0 <= index < |layers| {
        layers := layers[..index] + layers[index + 1..];
        if layers == [] {
          activeLayerIndex := None;
        } else {
          activeLayerIndex := Some(if index < |layers| then index else |layers| - 1);
        }
      }
    }

    /** `select_layer(index)`: the active index becomes `index` only when it names a layer. */
    method SelectLayer(index: int)
      requires Valid()
      modifies this
      ensures Valid() && layers == old(layers)
      ensures activeLayerIndex == if 0 <= index < |layers| then Some(index) else old(activeLayerIndex)
    {
      if 0 <= index < |layers| {
        activeLayerIndex := Some(index);
      }
    }

    /** `get_active_layer`: None exactly when there are no layers, else the layer at the active index. */
    function GetActiveLayer(): (l: Layer?)
      reads this
      requires Valid()
      ensures l == null <==> layers == []
      ensures l != null ==> l in layers && l == layers[activeLayerIndex.value]
    {
      if activeLayerIndex.None? then null else layers[activeLayerIndex.value]
    }
  }
}
