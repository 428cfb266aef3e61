/** The two pure rules inside the interactive point-handle plugin
    mpicbg/ij/InteractiveInvertibleCoordinateTransform.java: the text that
    `modifiers(flags)` makes of a modifier bit set, and the choice of the
    handle a mouse press grabs in `mousePressed`.
 */
module InteractiveTransform {
  import opened JavaInt

  datatype Option<T> = None | Some(value: T)

  // ---------------------------------------------------------------------------
  // modifiers(int flags)

  /** Bit positions of `java.awt.Event.SHIFT_MASK` (1), `CTRL_MASK` (2),
      `META_MASK` (4) and `ALT_MASK` (8). */
  const SHIFT: nat := 0
  const CTRL: nat := 1
  const META: nat := 2
  const ALT: nat := 3
  const MASK_COUNT: nat := 4

  /** The name `modifiers` appends for each mask, in the order it tests them. */
  const NAMES: seq<string> := ["Shift ", "Control ", "Meta (right button) ", "Alt "]

  const OPENING: string := " [ "
  const NO_MODIFIERS: string := " [no modifiers]"

  /** `(flags & (1 << bit)) != 0` on the two's complement value of `flags`:
      Euclidean division by a power of two is the arithmetic shift, also for
      negative values. */
  predicate HasBit(flags: int, bit: nat) {
    (flags / Pow2(bit)) % 2 == 1
  }

  /** The four tests `(flags & MASK) != 0`, in the source's order. */
  function MaskBits(flags: int): (bits: seq<bool>)
    ensures |bits| == MASK_COUNT
  {
    [HasBit(flags, SHIFT), HasBit(flags, CTRL), HasBit(flags, META), HasBit(flags, ALT)]
  }

  /** The names `modifiers` appends for the masks from `k` on, each iff its bit
      is set, in the source's order. */
  function NamesFrom(bits: seq<bool>, k: nat): string
    requires |bits| == MASK_COUNT && k <= MASK_COUNT
    decreases MASK_COUNT - k
  {
    if k == MASK_COUNT then ""
    else (if bits[k] then NAMES[k] else "") + NamesFrom(bits, k + 1)
  }

  /** `modifiers(flags)`: empty for no flags at all; otherwise `" [ "`, the
      names of the set masks and `"]"`, replaced by `" [no modifiers]"` when no
      name was appended. */
  function Modifiers(flags: int): (s: string)
    requires IsInt(flags)
    ensures s == "" <==> flags == 0
    ensures flags != 0 && flags % 16 == 0 ==> s == NO_MODIFIERS
  {
    if flags == 0 then ""
    else
      var s := OPENING + NamesFrom(MaskBits(flags), 0) + "]";
      MaskBitsValue(flags);
      NamesFromEmpty(MaskBits(flags), 0);
      if s == " [ ]" then NO_MODIFIERS else s
  }

  /** Reference decoder for the strings `modifiers` produces: the set of masks,
      as their sum, or `None` for a string it cannot produce. */
  function ParseModifiers(s: string): Option<int> {
    if s == "" || s == NO_MODIFIERS then Some(0)
    else if |s| >= 4 && s[..3] == OPENING && s[|s| - 1] == ']' then ParseNames(s[3..|s| - 1], 0)
    else None
  }

  /** Reads the names from mask `k` on, each at most once and in order, and
      nothing else. */
  function ParseNames(body: string, k: nat): Option<int>
    requires k <= MASK_COUNT
    decreases MASK_COUNT - k
  {
    if k == MASK_COUNT then (if body == "" then Some(0) else None)
    else if |NAMES[k]| <= |body| && body[..|NAMES[k]|] == NAMES[k] then
      match ParseNames(body[|NAMES[k]|..], k + 1)
      case Some(m) => Some(m + Pow2(k))
      case None => None
    else ParseNames(body, k + 1)
  }

  /** The masks from `k` on that are set, as their sum. */
  function BitsValue(bits: seq<bool>, k: nat): int
    requires |bits| == MASK_COUNT && k <= MASK_COUNT
    decreases MASK_COUNT - k
  {
    if k == MASK_COUNT then 0
    else (if bits[k] then Pow2(k) else 0) + BitsValue(bits, k + 1)
  }

  /** The four masks together are `flags & 15`, which for two's complement is
      the Euclidean `flags % 16`. */
  lemma MaskBitsValue(flags: int)
    ensures BitsValue(MaskBits(flags), 0) == flags % 16
  {
    var m := flags % 16;
    var bits := MaskBits(flags);
    BitOfMask(flags, 0);
    BitOfMask(flags, 1);
    BitOfMask(flags, 2);
    BitOfMask(flags, 3);
    assert Pow2(0) == 1 && Pow2(1) == 2 && Pow2(2) == 4 && Pow2(3) == 8;
    assert BitsValue(bits, 3) == if bits[3] then 8 else 0;
    assert BitsValue(bits, 2) == (if bits[2] then 4 else 0) + BitsValue(bits, 3);
    assert BitsValue(bits, 1) == (if bits[1] then 2 else 0) + BitsValue(bits, 2);
    assert BitsValue(bits, 0) == (if bits[0] then 1 else 0) + BitsValue(bits, 1);
    NibbleValue(m);
  }

  /** A value below 16 is the sum of its four binary digits. */
  lemma NibbleValue(m: int)
    requires 0 <= m < 16
    ensures m == m % 2 + 2 * ((m / 2) % 2) + 4 * ((m / 4) % 2) + 8 * ((m / 8) % 2)
  {
  }

  /** Each of the four mask bits of `flags` is the same bit of `flags % 16`. */
  lemma BitOfMask(flags: int, k: nat)
    requires k < MASK_COUNT
    ensures HasBit(flags, k) == HasBit(flags % 16, k)
  {
    var m := flags % 16;
    var t := flags / 16;
    assert flags == 16 * t + m;
    if k == 0 {
      assert Pow2(k) == 1;
      ShiftedDigit(flags, 1, 16, t, m);
    } else if k == 1 {
      assert Pow2(k) == 2;
      ShiftedDigit(flags, 2, 8, t, m);
    } else if k == 2 {
      assert Pow2(k) == 4;
      ShiftedDigit(flags, 4, 4, t, m);
    } else {
      assert Pow2(k) == 8;
      ShiftedDigit(flags, 8, 2, t, m);
    }
  }

  /** Shifting `flags = 16 * t + m` right by `p` (a power of two up to 8, with
      `p * s == 16`) leaves the same lowest digit as shifting `m`. */
  lemma ShiftedDigit(flags: int, p: int, s: int, t: int, m: int)
    requires (p == 1 && s == 16) || (p == 2 && s == 8) || (p == 4 && s == 4) || (p == 8 && s == 2)
    requires 0 <= m < 16 && flags == 16 * t + m
    ensures (flags / p) % 2 == (m / p) % 2
  {
    DivModUnique(flags, p, s * t + m / p, m % p);
    DivModUnique(s * t + m / p, 2, (s / 2) * t + (m / p) / 2, (m / p) % 2);
  }

  /** No name is appended exactly when no mask from `k` on is set. */
  lemma {:induction false} NamesFromEmpty(bits: seq<bool>, k: nat)
    requires |bits| == MASK_COUNT && k <= MASK_COUNT
    ensures NamesFrom(bits, k) == "" <==> BitsValue(bits, k) == 0
    ensures BitsValue(bits, k) >= 0
    decreases MASK_COUNT - k
  {
    if k < MASK_COUNT {
      NamesFromEmpty(bits, k + 1);
    }
  }

  /** What follows the names from mask `k` on starts with none of the earlier
      masks' names. */
  lemma {:induction false} NamesFromFirstChar(bits: seq<bool>, k: nat)
    requires |bits| == MASK_COUNT && k <= MASK_COUNT
    ensures NamesFrom(bits, k) != "" ==>
      forall j :: 0 <= j < k ==> NamesFrom(bits, k)[0] != NAMES[j][0]
    decreases MASK_COUNT - k
  {
    if k < MASK_COUNT {
      NamesFromFirstChar(bits, k + 1);
    }
  }

  /** Parsing the names from mask `k` on recovers exactly the masks set. */
  lemma {:induction false} ParseNamesFrom(bits: seq<bool>, k: nat)
    requires |bits| == MASK_COUNT && k <= MASK_COUNT
    ensures ParseNames(NamesFrom(bits, k), k) == Some(BitsValue(bits, k))
    decreases MASK_COUNT - k
  {
    if k < MASK_COUNT {
      ParseNamesFrom(bits, k + 1);
      if bits[k] {
        ParseSetMask(bits, k);
      } else {
        ParseClearMask(bits, k);
      }
    }
  }

  lemma ParseSetMask(bits: seq<bool>, k: nat)
    requires |bits| == MASK_COUNT && k < MASK_COUNT && bits[k]
    requires ParseNames(NamesFrom(bits, k + 1), k + 1) == Some(BitsValue(bits, k + 1))
    ensures ParseNames(NamesFrom(bits, k), k) == Some(BitsValue(bits, k))
  {
    var rest := NamesFrom(bits, k + 1);
    var v := BitsValue(bits, k + 1);
    assert NamesFrom(bits, k) == NAMES[k] + rest;
    assert BitsValue(bits, k) == Pow2(k) + v;
    ParseNameThere(rest, k, v);
  }

  lemma ParseClearMask(bits: seq<bool>, k: nat)
    requires |bits| == MASK_COUNT && k < MASK_COUNT && !bits[k]
    requires ParseNames(NamesFrom(bits, k + 1), k + 1) == Some(BitsValue(bits, k + 1))
    ensures ParseNames(NamesFrom(bits, k), k) == Some(BitsValue(bits, k))
  {
    var rest := NamesFrom(bits, k + 1);
    assert NamesFrom(bits, k) == rest;
    assert BitsValue(bits, k) == BitsValue(bits, k + 1);
    NamesFromFirstChar(bits, k + 1);
    assert rest != "" ==> rest[0] != NAMES[k][0];
    ParseNameAbsent(rest, k);
  }

  /** A body starting with the name of mask `k` sets that mask. */
  lemma ParseNameThere(rest: string, k: nat, v: int)
    requires k < MASK_COUNT && ParseNames(rest, k + 1) == Some(v)
    ensures ParseNames(NAMES[k] + rest, k) == Some(Pow2(k) + v)
  {
    var name := NAMES[k];
    assert (name + rest)[..|name|] == name;
    assert (name + rest)[|name|..] == rest;
  }

  /** A body starting with no earlier name than mask `k + 1`'s leaves mask `k`
      clear. */
  lemma ParseNameAbsent(rest: string, k: nat)
    requires k < MASK_COUNT
    requires rest != "" ==> rest[0] != NAMES[k][0]
    ensures ParseNames(rest, k) == ParseNames(rest, k + 1)
  {
  }

  /** `modifiers` loses nothing but the bits outside the four masks: decoding its
      text gives back `flags & 15`. */
  lemma ModifiersRoundTrip(flags: int)
    requires IsInt(flags)
    ensures ParseModifiers(Modifiers(flags)) == Some(flags % 16)
  {
    if flags != 0 {
      var bits := MaskBits(flags);
      var names := NamesFrom(bits, 0);
      var s := OPENING + names + "]";
      MaskBitsValue(flags);
      NamesFromEmpty(bits, 0);
      if names != "" {
        assert s != " [ ]";
        assert s[2] != NO_MODIFIERS[2];
        assert s[..3] == OPENING;
        assert s[3..|s| - 1] == names;
        ParseNamesFrom(bits, 0);
      }
    }
  }

  /** For non-zero flags, the text depends on the four masks and on nothing
      else: two flag words give the same text exactly when they agree on the
      masks. */
  lemma ModifiersDependOnMasksOnly(f: int, g: int)
    requires IsInt(f) && IsInt(g) && f != 0 && g != 0
    ensures Modifiers(f) == Modifiers(g) <==> f % 16 == g % 16
  {
    ModifiersRoundTrip(f);
    ModifiersRoundTrip(g);
    if f % 16 == g % 16 {
      SameMaskSameBits(f, g);
      assert Modifiers(f) == Modifiers(g);
    }
  }

  lemma SameMaskSameBits(f: int, g: int)
    requires f % 16 == g % 16
    ensures MaskBits(f) == MaskBits(g)
  {
    BitOfMask(f, 0);
    BitOfMask(g, 0);
    BitOfMask(f, 1);
    BitOfMask(g, 1);
    BitOfMask(f, 2);
    BitOfMask(g, 2);
    BitOfMask(f, 3);
    BitOfMask(g, 3);
  }

  // ---------------------------------------------------------------------------
  // Handle selection in mousePressed

  /** `MouseEvent.BUTTON1`, the left button. */
  const BUTTON1: int := 1

  /** A handle must lie within 8 screen pixels of the press: squared, 64. */
  const GRAB_RADIUS_SQ: real := 64.0

  /** `Double.MAX_VALUE`, the initial best distance. */
  const DOUBLE_MAX: real := 179769313486231570814527423731704356798070567525844996598917476803157260780028538760589558632766878171540458953514382464234321326889464182768467546703537516986049910576551282076245490090389328944075868508455133942304583236903222948165808559332123348274797826204144723168738177180919299881250404026184124858368.0

  /** A handle's world coordinates, `q[i].getW()`. */
  datatype Point = Point(x: real, y: real)

  /** Squared screen distance from handle `h` to the pressed image pixel
      `(x, y)`, both differences scaled by the canvas magnification. */
  function ScreenDistanceSq(h: Point, x: int, y: int, magnification: real): real {
    var dx := magnification * (h.x - x as real);
    var dy := magnification * (h.y - y as real);
    dx * dx + dy * dy
  }

  /** The handle a press at image pixel `(x, y)` grabs: for the left button,
      the handle nearest on screen among those within the grab radius, the
      first one on a tie; -1 for any other button or when no handle is close
      enough. */
  method PickHandle(button: int, q: seq<Point>, x: int, y: int, magnification: real)
    returns (targetIndex: int)
    ensures targetIndex == -1 || 0 <= targetIndex < |q|
    ensures targetIndex == -1 <==>
      button != BUTTON1 ||
      forall j :: 0 <= j < |q| ==> ScreenDistanceSq(q[j], x, y, magnification) >= GRAB_RADIUS_SQ
    ensures 0 <= targetIndex < |q| ==>
      var best := ScreenDistanceSq(q[targetIndex], x, y, magnification);
      && best < GRAB_RADIUS_SQ
      && (forall j :: 0 <= j < |q| ==> best <= ScreenDistanceSq(q[j], x, y, magnification))
      && (forall j :: 0 <= j < targetIndex ==> best < ScreenDistanceSq(q[j], x, y, magnification))
  {
    targetIndex := -1;
    if button == BUTTON1 {
      var targetD := DOUBLE_MAX;
      var i := 0;
      while i < |q|
        invariant 0 <= i <= |q|
        invariant targetIndex == -1 ==>
          forall j :: 0 <= j < i ==> ScreenDistanceSq(q[j], x, y, magnification) >= GRAB_RADIUS_SQ
        invariant targetIndex != -1 ==>
          && 0 <= targetIndex < i
          && targetD == ScreenDistanceSq(q[targetIndex], x, y, magnification)
          && targetD < GRAB_RADIUS_SQ
          && (forall j :: 0 <= j < i ==> targetD <= ScreenDistanceSq(q[j], x, y, magnification))
          && (forall j :: 0 <= j < targetIndex ==> targetD < ScreenDistanceSq(q[j], x, y, magnification))
        invariant targetIndex == -1 ==> targetD == DOUBLE_MAX
      {
        var d := ScreenDistanceSq(q[i], x, y, magnification);
        if d < GRAB_RADIUS_SQ && d < targetD {
          targetIndex := i;
          targetD := d;
        }
        i := i + 1;
      }
    }
  }
}
