/**
 * Word-at-a-time scanning of shadow bytes: eight bytes copied into a 64-bit integer, compared with a
 * repeated byte, or searched for a given two-bit status with the borrow trick for zero bytes.
 */
module ShadowWord {

  const BYTE_ONES: bv64 := 0x0101_0101_0101_0101
  const BYTE_HIGH_BITS: bv64 := 0x8080_8080_8080_8080
  const BYTE_STATUS_MASKS: bv64 := 0x0303_0303_0303_0303

  /** The low two bits of a shadow byte are its status. */
  predicate HasStatus(x: bv8, status: bv8) { x & 3 == status }

  ghost predicate AnyHas(b: seq<bv8>, status: bv8) { exists i :: 0 <= i < |b| && HasStatus(b[i], status) }

  /** ReadShadowWord on a little-endian host. */
  function Join(a: bv8, b: bv8, c: bv8, d: bv8, e: bv8, f: bv8, g: bv8, h: bv8): bv64 {
    (a as bv64) | ((b as bv64) << 8) | ((c as bv64) << 16) | ((d as bv64) << 24)
    | ((e as bv64) << 32) | ((f as bv64) << 40) | ((g as bv64) << 48) | ((h as bv64) << 56)
  }

  function Splat(h: bv8): bv64 { (h as bv64) * BYTE_ONES }

  /** Borrows may smear to the left of a zero byte, but none starts without one. */
  predicate HasZeroByte(word: bv64) {
    ((word - BYTE_ONES) & !word & BYTE_HIGH_BITS) != 0
  }

  predicate OneOf(a: bv8, b: bv8, c: bv8, d: bv8, e: bv8, f: bv8, g: bv8, h: bv8, x: bv8) {
    HasStatus(a, x) || HasStatus(b, x) || HasStatus(c, x) || HasStatus(d, x)
    || HasStatus(e, x) || HasStatus(f, x) || HasStatus(g, x) || HasStatus(h, x)
  }

  lemma NoAccessInWord(w: bv64, a: bv8, b: bv8, c: bv8, d: bv8, e: bv8, f: bv8, g: bv8, h: bv8, x: bv8)
    requires w == Join(a, b, c, d, e, f, g, h) && x == 0
    ensures HasZeroByte((w ^ Splat(x)) & BYTE_STATUS_MASKS) <==> OneOf(a, b, c, d, e, f, g, h, x)
  {
  }

  lemma UndefinedInWord(w: bv64, a: bv8, b: bv8, c: bv8, d: bv8, e: bv8, f: bv8, g: bv8, h: bv8, x: bv8)
    requires w == Join(a, b, c, d, e, f, g, h) && x == 1
    ensures HasZeroByte((w ^ Splat(x)) & BYTE_STATUS_MASKS) <==> OneOf(a, b, c, d, e, f, g, h, x)
  {
  }

  lemma DefinedInWord(w: bv64, a: bv8, b: bv8, c: bv8, d: bv8, e: bv8, f: bv8, g: bv8, h: bv8, x: bv8)
    requires w == Join(a, b, c, d, e, f, g, h) && x == 2
    ensures HasZeroByte((w ^ Splat(x)) & BYTE_STATUS_MASKS) <==> OneOf(a, b, c, d, e, f, g, h, x)
  {
  }

  lemma ErrorInWord(w: bv64, a: bv8, b: bv8, c: bv8, d: bv8, e: bv8, f: bv8, g: bv8, h: bv8, x: bv8)
    requires w == Join(a, b, c, d, e, f, g, h) && x == 3
    ensures HasZeroByte((w ^ Splat(x)) & BYTE_STATUS_MASKS) <==> OneOf(a, b, c, d, e, f, g, h, x)
  {
  }

  lemma StatusInWord(w: bv64, a: bv8, b: bv8, c: bv8, d: bv8, e: bv8, f: bv8, g: bv8, h: bv8, x: bv8)
    requires w == Join(a, b, c, d, e, f, g, h) && x <= 3
    ensures HasZeroByte((w ^ Splat(x)) & BYTE_STATUS_MASKS) <==> OneOf(a, b, c, d, e, f, g, h, x)
  {
    if x == 0 {
      NoAccessInWord(w, a, b, c, d, e, f, g, h, x);
    } else if x == 1 {
      UndefinedInWord(w, a, b, c, d, e, f, g, h, x);
    } else if x == 2 {
      DefinedInWord(w, a, b, c, d, e, f, g, h, x);
    } else {
      ErrorInWord(w, a, b, c, d, e, f, g, h, x);
    }
  }

  lemma OneOfIsAny(b: seq<bv8>, status: bv8)
    requires |b| == 8
    ensures OneOf(b[0], b[1], b[2], b[3], b[4], b[5], b[6], b[7], status) <==> AnyHas(b, status)
  {
    if AnyHas(b, status) {
      var i :| 0 <= i < |b| && HasStatus(b[i], status);
      assert i == 0 || i == 1 || i == 2 || i == 3 || i == 4 || i == 5 || i == 6 || i == 7;
    }
  }

  method TestWord(a: bv8, b: bv8, c: bv8, d: bv8, e: bv8, f: bv8, g: bv8, h: bv8, x: bv8) returns (r: bool)
    requires x <= 3
    ensures r <==> OneOf(a, b, c, d, e, f, g, h, x)
  {
    var w := Join(a, b, c, d, e, f, g, h);
    StatusInWord(w, a, b, c, d, e, f, g, h, x);
    r := HasZeroByte((w ^ Splat(x)) & BYTE_STATUS_MASKS);
  }

  /** The whole-word test finds a status exactly when one of the eight bytes has it. */
  method WordHasStatus(b: seq<bv8>, status: bv8) returns (r: bool)
    requires |b| == 8 && status <= 3
    ensures r <==> AnyHas(b, status)
  {
    r := TestWord(b[0], b[1], b[2], b[3], b[4], b[5], b[6], b[7], status);
    OneOfIsAny(b, status);
  }

  lemma SplatIsJoin(h: bv8)
    ensures Splat(h) == Join(h, h, h, h, h, h, h, h)
  {
  }

  lemma JoinInjective(a: bv8, b: bv8, c: bv8, d: bv8, e: bv8, f: bv8, g: bv8, h: bv8, x: bv8)
    ensures Join(a, b, c, d, e, f, g, h) == Join(x, x, x, x, x, x, x, x)
            <==> a == x && b == x && c == x && d == x && e == x && f == x && g == x && h == x
  {
  }

  /** Comparing a word with a repeated byte compares all eight bytes. */
  method WordIsSplat(b: seq<bv8>, h: bv8) returns (r: bool)
    requires |b| == 8
    ensures r <==> forall i :: 0 <= i < 8 ==> b[i] == h
  {
    SplatIsJoin(h);
    JoinInjective(b[0], b[1], b[2], b[3], b[4], b[5], b[6], b[7], h);
    r := Join(b[0], b[1], b[2], b[3], b[4], b[5], b[6], b[7]) == Splat(h);
  }
}
