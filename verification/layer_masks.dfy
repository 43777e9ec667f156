/** LayerMaskExtensions: membership of a layer in a 32-bit layer mask. */
module LayerMasks {

  /** A LayerMask is a 32-bit integer; one bit per layer. */
  type Mask = bv32

  datatype GameObject = GameObject(layer: int)
  datatype Collider = Collider(gameObject: GameObject)

  /**
   * The C# expression `1 << layer` on a 32-bit int: the shift count is taken
   * modulo 32.
   */
  function LayerBit(layer: int): bv32 {
    (1 as bv32) << (layer % 32)
  }

  /** The 32 single-bit masks, written out. */
  function BitTable(i: nat): (b: bv32)
    requires i < 32
    ensures b != 0 && b & (b - 1) == 0
  {
    match i
    case 0 => 0x1
    case 1 => 0x2
    case 2 => 0x4
    case 3 => 0x8
    case 4 => 0x10
    case 5 => 0x20
    case 6 => 0x40
    case 7 => 0x80
    case 8 => 0x100
    case 9 => 0x200
    case 10 => 0x400
    case 11 => 0x800
    case 12 => 0x1000
    case 13 => 0x2000
    case 14 => 0x4000
    case 15 => 0x8000
    case 16 => 0x10000
    case 17 => 0x20000
    case 18 => 0x40000
    case 19 => 0x80000
    case 20 => 0x100000
    case 21 => 0x200000
    case 22 => 0x400000
    case 23 => 0x800000
    case 24 => 0x1000000
    case 25 => 0x2000000
    case 26 => 0x4000000
    case 27 => 0x8000000
    case 28 => 0x10000000
    case 29 => 0x20000000
    case 30 => 0x40000000
    case 31 => 0x80000000
  }

  /** LayerBit always yields one of the single-bit masks. */
  lemma LayerBitInTable(layer: int)
    ensures LayerBit(layer) == BitTable(layer % 32)
  {
    match layer % 32
    case 0 =>
    case 1 =>
    case 2 =>
    case 3 =>
    case 4 =>
    case 5 =>
    case 6 =>
    case 7 =>
    case 8 =>
    case 9 =>
    case 10 =>
    case 11 =>
    case 12 =>
    case 13 =>
    case 14 =>
    case 15 =>
    case 16 =>
    case 17 =>
    case 18 =>
    case 19 =>
    case 20 =>
    case 21 =>
    case 22 =>
    case 23 =>
    case 24 =>
    case 25 =>
    case 26 =>
    case 27 =>
    case 28 =>
    case 29 =>
    case 30 =>
    case 31 =>
  }

  /** Contains(mask, layer): the bit for `layer` is set in `mask`. */
  function Contains(mask: Mask, layer: int): bool {
    mask & LayerBit(layer) != 0
  }

  /** Contains(mask, gameObject): the test applied to the object's layer. */
  function ContainsObject(mask: Mask, gameObject: GameObject): (r: bool)
    ensures r == Contains(mask, gameObject.layer)
  {
    mask & LayerBit(gameObject.layer) != 0
  }

  /** Contains(mask, collider): the test applied to the layer of the collider's object. */
  function ContainsCollider(mask: Mask, collider: Collider): (r: bool)
    ensures r == Contains(mask, collider.gameObject.layer)
  {
    mask & LayerBit(collider.gameObject.layer) != 0
  }

  /** The empty mask contains no layer. */
  lemma EmptyMaskContainsNothing(layer: int)
    ensures !Contains(0, layer)
  {
  }

  /** The Grabber's default mask 0x7FFFFFFF holds layers 0 to 30 and not layer 31. */
  lemma DefaultGrabbableLayers(layer: int)
    requires 0 <= layer < 32
    ensures Contains(0x7FFF_FFFF, layer) <==> layer < 31
  {
    assert layer % 32 == layer;
    LayerBitInTable(layer);
    DefaultMaskTable(layer % 32);
  }

  lemma DefaultMaskTable(i: nat)
    requires i < 32
    ensures (0x7FFF_FFFF & BitTable(i) != 0) <==> i < 31
  {
  }

  /** Membership in the union of two masks is membership in either (both directions). */
  lemma UnionContains(m1: Mask, m2: Mask, layer: int)
    ensures Contains(m1 | m2, layer) ==> Contains(m1, layer) || Contains(m2, layer)
    ensures Contains(m1, layer) ==> Contains(m1 | m2, layer)
    ensures Contains(m2, layer) ==> Contains(m1 | m2, layer)
  {
    UnionHasBit(m1, m2, LayerBit(layer));
  }

  lemma UnionHasBit(m1: Mask, m2: Mask, b: bv32)
    ensures (m1 | m2) & b != 0 <==> m1 & b != 0 || m2 & b != 0
  {
    AndDistributesOverOr(m1, m2, b);
    OrNonZero(m1 & b, m2 & b);
  }

  lemma AndDistributesOverOr(m1: Mask, m2: Mask, b: bv32)
    ensures (m1 | m2) & b == (m1 & b) | (m2 & b)
  {
  }

  lemma OrNonZero(x: bv32, y: bv32)
    ensures x | y != 0 <==> x != 0 || y != 0
  {
  }

  /**
   * The VRGrab Grabber tests `(mask & bit) == bit` instead of `!= 0`; with a
   * single bit the two tests agree.
   */
  lemma SingleBitTestsAgree(mask: Mask, layer: int)
    ensures (mask & LayerBit(layer) == LayerBit(layer)) <==> Contains(mask, layer)
  {
    LayerBitInTable(layer);
    SingleBit(mask, LayerBit(layer));
  }

  lemma SingleBit(mask: Mask, b: bv32)
    requires b != 0 && b & (b - 1) == 0
    ensures (mask & b == b) <==> mask & b != 0
  {
  }
}
