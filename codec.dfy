/**
 * The register codec of a NIBE coil: a register definition and the pure
 * conversions between the bytes of a register and its logical value.
 *
 * Read path (`raw_value` assigned): word order, fixed-width integer,
 * mapping or raw-bounds check, then a label or the integer divided by the
 * factor. Write path (`value` assigned, `raw_value` read): eager check
 * against the labels or the engineering bounds, then the mapping key or
 * the value times the factor, rounded, packed into the register's width
 * and zero-filled to four bytes.
 */
module Codec {
  import opened Words

  datatype Option<T> = None | Some(value: T)

  /** The three failure kinds, which the program keeps apart. */
  datatype Error =
    | Rejected              // AssertionError when `value` is assigned
    | DecodeError(raw: int) // DecodeException when `raw_value` is assigned
    | EncodeError           // EncodeException when `raw_value` is read

  datatype Result<T> = Ok(value: T) | Err(error: Error)

  /** A logical (engineering) value: a number, or a label of a mapping. */
  datatype Value = Num(number: real) | Label(text: string)

  /** A positive scale factor. */
  type Pos = n: int | n >= 1 witness 1

  /** The width and sign of a register: `s8`, `u8`, `s16`, `u16`, `s32`, `u32`. */
  datatype WidthClass = S8 | U8 | S16 | U16 | S32 | U32
  {
    /** Storage width in bytes. */
    function Width(): nat
    {
      match this
      case S8 | U8 => 1
      case S16 | U16 => 2
      case S32 | U32 => 4
    }

    predicate Signed()
    {
      this == S8 || this == S16 || this == S32
    }

    /** How many bit patterns the register holds. */
    function Modulus(): nat
    {
      Pow256(Width())
    }

    /** Smallest integer the register holds (two's complement when signed). */
    function MinRaw(): int
    {
      if Signed() then -(Modulus() / 2) else 0
    }

    /** Largest integer the register holds. */
    function MaxRaw(): int
    {
      if Signed() then Modulus() / 2 - 1 else Modulus() - 1
    }
  }

  /** The size names the register tables use. */
  function SizeName(w: WidthClass): string
  {
    match w
    case S8 => "s8"
    case U8 => "u8"
    case S16 => "s16"
    case U16 => "u16"
    case S32 => "s32"
    case U32 => "u32"
  }

  /** The width class a size name selects; an unknown name selects none. */
  function ParseSize(s: string): (r: Option<WidthClass>)
    ensures r.Some? ==> SizeName(r.value) == s
    ensures r.None? <==> s !in {"s8", "u8", "s16", "u16", "s32", "u32"}
  {
    if s == "s8" then Some(S8)
    else if s == "u8" then Some(U8)
    else if s == "s16" then Some(S16)
    else if s == "u16" then Some(U16)
    else if s == "s32" then Some(S32)
    else if s == "u32" then Some(U32)
    else None
  }

  /** Every width class is found again from its own name. */
  lemma ParseSizeName(w: WidthClass)
    ensures ParseSize(SizeName(w)) == Some(w)
  {
  }

  // ---------------------------------------------------------------------
  // Fixed-width integers
  // ---------------------------------------------------------------------

  /**
   * The integer held in the leading `w.Width()` bytes of `bs`, little
   * endian, two's complement for the signed classes. Bytes after the
   * register's width are not read.
   */
  function ParseInt(w: WidthClass, bs: seq<Byte>): (n: int)
    requires |bs| >= w.Width()
    ensures w.MinRaw() <= n <= w.MaxRaw()
    ensures (n - FromLittleEndian(bs[..w.Width()])) % w.Modulus() == 0
  {
    var u := FromLittleEndian(bs[..w.Width()]);
    if w.Signed() && u > w.MaxRaw() then u - w.Modulus() else u
  }

  /**
   * The `w.Width()` bytes that hold `n`, or an encode error when `n` does
   * not fit the register's width and sign.
   */
  function BuildInt(w: WidthClass, n: int): (r: Result<seq<Byte>>)
    ensures r.Ok? <==> w.MinRaw() <= n <= w.MaxRaw()
    ensures r.Err? ==> r.error == EncodeError
    ensures r.Ok? ==> |r.value| == w.Width() && ParseInt(w, r.value) == n
  {
    if w.MinRaw() <= n <= w.MaxRaw() then
      var bs := ToLittleEndian(if n < 0 then n + w.Modulus() else n, w.Width());
      assert bs[..w.Width()] == bs;
      Ok(bs)
    else
      Err(EncodeError)
  }

  /** Building the integer a buffer holds gives back that buffer. */
  lemma ParseBuildRoundTrip(w: WidthClass, bs: seq<Byte>)
    requires |bs| == w.Width()
    ensures BuildInt(w, ParseInt(w, bs)) == Ok(bs)
  {
    assert bs[..w.Width()] == bs;
    var u := FromLittleEndian(bs);
    var n := ParseInt(w, bs);
    assert (if n < 0 then n + w.Modulus() else n) == u;
    LittleEndianRoundTrip(bs);
  }

  // ---------------------------------------------------------------------
  // Register definitions
  // ---------------------------------------------------------------------

  /** One entry of a mapping: a raw integer and its display label. */
  datatype Entry = Entry(raw: int, display: string)

  /**
   * A register definition as configured: an empty `mappings` means no
   * mapping; `other` keeps the attributes the codec does not know.
   */
  datatype Definition = Definition(
    address: nat,
    name: string,
    title: string,
    size: WidthClass,
    factor: Pos,
    rawMin: Option<int>,
    rawMax: Option<int>,
    mappings: seq<Entry>,
    writable: bool,
    wordSwap: bool,
    other: map<string, string>)

  /**
   * A definition with the constructor's defaults: factor 1, no bounds, no
   * mapping, not writable, default word order, no other attributes.
   */
  function Configure(address: nat, name: string, title: string, size: WidthClass,
                     factor: Pos := 1, rawMin: Option<int> := None, rawMax: Option<int> := None,
                     mappings: seq<Entry> := [], write: bool := false, wordSwap: bool := true,
                     other: map<string, string> := map[]): (d: Definition)
    ensures d.address == address && d.name == name && d.title == title && d.size == size
    ensures d.factor == factor && d.rawMin == rawMin && d.rawMax == rawMax
    ensures d.mappings == mappings && d.writable == write && d.wordSwap == wordSwap && d.other == other
  {
    Definition(address, name, title, size, factor, rawMin, rawMax, mappings, write, wordSwap, other)
  }

  /** No two entries of a mapping share a raw key, as in a dictionary. */
  predicate DistinctKeys(t: seq<Entry>)
  {
    forall i, j :: 0 <= i < j < |t| ==> t[i].raw != t[j].raw
  }

  /** No two entries of a mapping share a label. */
  predicate DistinctLabels(t: seq<Entry>)
  {
    forall i, j :: 0 <= i < j < |t| ==> t[i].display != t[j].display
  }

  /** A raw integer in engineering units: divided by the factor. */
  function Unscale(n: int, factor: Pos): real
  {
    n as real / factor as real
  }

  /** An engineering value in raw units: multiplied by the factor and rounded. */
  function ScaleRound(x: real, factor: Pos): int
  {
    RoundHalfUp(x * factor as real)
  }

  /** Scaling an unscaled integer back gives the integer. */
  lemma ScaleBack(n: int, factor: Pos)
    ensures ScaleRound(Unscale(n, factor), factor) == n
  {
    var f := factor as real;
    assert n as real / f * f == n as real;
  }

  /** `min`: the engineering lower bound, the raw lower bound divided by the factor. */
  function EngMin(d: Definition): (r: Option<real>)
    ensures r.Some? <==> d.rawMin.Some?
    ensures r.Some? ==> r.value * d.factor as real == d.rawMin.value as real
  {
    if d.rawMin.Some? then Some(Unscale(d.rawMin.value, d.factor)) else None
  }

  /** `max`: the engineering upper bound, the raw upper bound divided by the factor. */
  function EngMax(d: Definition): (r: Option<real>)
    ensures r.Some? <==> d.rawMax.Some?
    ensures r.Some? ==> r.value * d.factor as real == d.rawMax.value as real
  {
    if d.rawMax.Some? then Some(Unscale(d.rawMax.value, d.factor)) else None
  }

  /** A raw integer lies within the configured raw bounds (inclusive). */
  predicate InRawBounds(d: Definition, n: int)
  {
    (d.rawMin.None? || d.rawMin.value <= n) && (d.rawMax.None? || n <= d.rawMax.value)
  }

  /** An engineering value lies within `min` and `max` (inclusive). */
  predicate InEngBounds(d: Definition, x: real)
  {
    (EngMin(d).None? || EngMin(d).value <= x) && (EngMax(d).None? || x <= EngMax(d).value)
  }

  /**
   * The engineering bounds are the raw bounds seen through the factor:
   * `x` is within `min`..`max` exactly when `x * factor` is within
   * `raw_min`..`raw_max`.
   */
  lemma EngBoundsAreRawBounds(d: Definition, x: real)
    ensures InEngBounds(d, x) <==>
      (d.rawMin.None? || d.rawMin.value as real <= x * d.factor as real) &&
      (d.rawMax.None? || x * d.factor as real <= d.rawMax.value as real)
  {
    var f := d.factor as real;
    if d.rawMin.Some? {
      var m := EngMin(d).value;
      assert m <= x <==> m * f <= x * f;
    }
    if d.rawMax.Some? {
      var m := EngMax(d).value;
      assert x <= m <==> x * f <= m * f;
    }
  }

  // ---------------------------------------------------------------------
  // Labels
  // ---------------------------------------------------------------------

  /** Upper case of one character (ASCII letters). */
  function UpperChar(c: char): char
  {
    if 'a' <= c <= 'z' then (c as int - 32) as char else c
  }

  /** Upper case of a string, character by character. */
  function Upper(s: string): string
  {
    seq(|s|, i requires 0 <= i < |s| => UpperChar(s[i]))
  }

  /** Upper-casing a string twice is upper-casing it once. */
  lemma {:induction false} UpperIdempotent(s: string)
    ensures Upper(Upper(s)) == Upper(s)
  {
    var u := Upper(s);
    assert forall i :: 0 <= i < |s| ==> Upper(u)[i] == u[i];
  }

  /** A mapping whose labels are upper-cased. */
  function UpperLabels(m: seq<Entry>): (t: seq<Entry>)
    ensures |t| == |m|
    ensures forall i :: 0 <= i < |m| ==> t[i] == Entry(m[i].raw, Upper(m[i].display))
  {
    seq(|m|, i requires 0 <= i < |m| => Entry(m[i].raw, Upper(m[i].display)))
  }

  /** A numeric register bounded to 0..1. */
  predicate BoundedBoolean(d: Definition)
  {
    d.rawMin == Some(0) && d.rawMax == Some(1)
  }

  /** The implicit table of a 0..1 register that has no mapping of its own. */
  function OffOn(): (t: seq<Entry>)
    ensures |t| == 2 && forall i :: 0 <= i < 2 ==> Upper(t[i].display) == t[i].display
    ensures LabelOf(t, 0) == Some("OFF") && LabelOf(t, 1) == Some("ON")
    ensures RawOf(t, "OFF") == Some(0) && RawOf(t, "ON") == Some(1)
  {
    var t := [Entry(0, "OFF"), Entry(1, "ON")];
    assert Upper("OFF") == "OFF" && Upper("ON") == "ON";
    assert t[..1] == [Entry(0, "OFF")];
    t
  }

  /**
   * The label table in force: the configured mappings with their labels
   * upper-cased, or for a 0..1 register without mappings the implicit
   * {0: OFF, 1: ON}, or none.
   */
  function Table(d: Definition): (t: seq<Entry>)
    ensures |t| > 0 <==> |d.mappings| > 0 || BoundedBoolean(d)
    ensures forall i :: 0 <= i < |t| ==> Upper(t[i].display) == t[i].display
    ensures DistinctKeys(d.mappings) ==> DistinctKeys(t)
  {
    if |d.mappings| > 0 then
      var t := UpperLabels(d.mappings);
      forall i | 0 <= i < |t| ensures Upper(t[i].display) == t[i].display {
        UpperIdempotent(d.mappings[i].display);
      }
      t
    else if BoundedBoolean(d) then OffOn()
    else []
  }

  /** In a table with distinct keys, the label found for an entry's key is that entry's label. */
  lemma DistinctKeyLookup(t: seq<Entry>, i: int)
    requires DistinctKeys(t) && 0 <= i < |t|
    ensures LabelOf(t, t[i].raw) == Some(t[i].display)
  {
    var l := LabelOf(t, t[i].raw).value;
    var j :| 0 <= j < |t| && t[j] == Entry(t[i].raw, l);
  }

  /**
   * The keys of the table in force are the configured keys: a key has a
   * label exactly when some configured entry carries it.
   */
  /**
   * The table in force is the configured dictionary with its labels
   * upper-cased: each configured key finds its own label, upper-cased.
   */
  lemma TableLookup(d: Definition, i: int)
    requires DistinctKeys(d.mappings) && 0 <= i < |d.mappings|
    ensures LabelOf(Table(d), d.mappings[i].raw) == Some(Upper(d.mappings[i].display))
  {
    DistinctKeyLookup(Table(d), i);
  }

  /** A 0..1 register without mappings reads 0 as "OFF" and 1 as "ON", and the reverse. */
  lemma TableImplicit(d: Definition)
    requires |d.mappings| == 0 && BoundedBoolean(d)
    ensures LabelOf(Table(d), 0) == Some("OFF") && LabelOf(Table(d), 1) == Some("ON")
    ensures RawOf(Table(d), "OFF") == Some(0) && RawOf(Table(d), "ON") == Some(1)
  {
  }

  lemma TableKeys(d: Definition, k: int)
    requires |d.mappings| > 0
    ensures LabelOf(Table(d), k).None? <==> forall i :: 0 <= i < |d.mappings| ==> d.mappings[i].raw != k
  {
  }

  /**
   * The labels of the table in force are the configured labels upper-cased:
   * a label has a key exactly when it is the upper case of some configured
   * label.
   */
  lemma TableLabels(d: Definition, s: string)
    requires |d.mappings| > 0
    ensures RawOf(Table(d), s).None? <==> forall i :: 0 <= i < |d.mappings| ==> Upper(d.mappings[i].display) != s
  {
  }

  /** The register's logical values are labels. */
  predicate Mapped(d: Definition)
  {
    |Table(d)| > 0
  }

  /** `is_boolean`: two labels, or raw bounds 0..1. */
  predicate IsBoolean(d: Definition): (b: bool)
    ensures b ==> Mapped(d)
    ensures b && |d.mappings| == 0 ==> Table(d) == OffOn()
  {
    |d.mappings| == 2 || BoundedBoolean(d)
  }

  /** The label of the last entry keyed `raw`, as a dictionary built from `t` holds it. */
  function LabelOf(t: seq<Entry>, raw: int): (r: Option<string>)
    ensures r.None? <==> forall i :: 0 <= i < |t| ==> t[i].raw != raw
    ensures r.Some? ==> exists i :: 0 <= i < |t| && t[i] == Entry(raw, r.value)
  {
    if t == [] then None
    else if t[|t| - 1].raw == raw then Some(t[|t| - 1].display)
    else
      var r := LabelOf(t[..|t| - 1], raw);
      assert forall i :: 0 <= i < |t| - 1 ==> t[..|t| - 1][i] == t[i];
      r
  }

  /** The key of the last entry labelled `text`, as the reverse dictionary holds it. */
  function RawOf(t: seq<Entry>, text: string): (r: Option<int>)
    ensures r.None? <==> forall i :: 0 <= i < |t| ==> t[i].display != text
    ensures r.Some? ==> exists i :: 0 <= i < |t| && t[i] == Entry(r.value, text)
  {
    if t == [] then None
    else if t[|t| - 1].display == text then Some(t[|t| - 1].raw)
    else
      var r := RawOf(t[..|t| - 1], text);
      assert forall i :: 0 <= i < |t| - 1 ==> t[..|t| - 1][i] == t[i];
      r
  }

  /** With distinct keys, the key found for a label leads back to that label. */
  lemma RawOfThenLabelOf(t: seq<Entry>, text: string)
    requires DistinctKeys(t)
    requires RawOf(t, text).Some?
    ensures LabelOf(t, RawOf(t, text).value) == Some(text)
  {
    var k := RawOf(t, text).value;
    var i :| 0 <= i < |t| && t[i] == Entry(k, text);
    var l := LabelOf(t, k).value;
    var j :| 0 <= j < |t| && t[j] == Entry(k, l);
    assert i == j;
  }

  /** With distinct labels, the label found for a key leads back to that key. */
  lemma LabelOfThenRawOf(t: seq<Entry>, raw: int)
    requires DistinctLabels(t)
    requires LabelOf(t, raw).Some?
    ensures RawOf(t, LabelOf(t, raw).value) == Some(raw)
  {
    var l := LabelOf(t, raw).value;
    var i :| 0 <= i < |t| && t[i] == Entry(raw, l);
    var k := RawOf(t, l).value;
    var j :| 0 <= j < |t| && t[j] == Entry(k, l);
    assert i == j;
  }

  // ---------------------------------------------------------------------
  // The codec
  // ---------------------------------------------------------------------

  /**
   * A logical value the register can hold: one of its labels (upper case)
   * when it is mapped, otherwise a number within `min`..`max`.
   */
  predicate Conforms(d: Definition, v: Value)
  {
    if Mapped(d) then v.Label? && RawOf(Table(d), v.text).Some?
    else v.Num? && InEngBounds(d, v.number)
  }

  /** Rounds to the nearest integer, halves upward. */
  function RoundHalfUp(x: real): (n: int)
    ensures n as real - 0.5 <= x < n as real + 0.5
  {
    (x + 0.5).Floor
  }

  /** Rounding keeps a real on the same side of an integer bound. */
  lemma RoundKeepsBounds(x: real, bound: int)
    ensures bound as real <= x ==> bound <= RoundHalfUp(x)
    ensures x <= bound as real ==> RoundHalfUp(x) <= bound
  {
  }

  /**
   * A number within `min`..`max` scales and rounds to a raw integer within
   * `raw_min`..`raw_max`.
   */
  lemma RoundedWithinRawBounds(d: Definition, x: real)
    requires InEngBounds(d, x)
    ensures InRawBounds(d, ScaleRound(x, d.factor))
  {
    EngBoundsAreRawBounds(d, x);
    if d.rawMin.Some? { RoundKeepsBounds(x * d.factor as real, d.rawMin.value); }
    if d.rawMax.Some? { RoundKeepsBounds(x * d.factor as real, d.rawMax.value); }
  }

  /** The buffer in the order the integer is read from: words swapped when `word_swap` is off. */
  function WordOrder(d: Definition, bs: seq<Byte>): (r: seq<Byte>)
    ensures |r| == |bs|
    ensures d.size.Width() < 4 || d.wordSwap ==> r == bs
    ensures d.size.Width() == 4 && !d.wordSwap && |bs| == 4 ==>
      forall i :: 0 <= i < 4 ==> r[i] == bs[(i + 2) % 4]
  {
    if d.size.Width() == 4 && !d.wordSwap then SwapWords(bs) else bs
  }

  /** Putting a buffer into word order twice restores it. */
  lemma WordOrderInvolution(d: Definition, bs: seq<Byte>)
    ensures WordOrder(d, WordOrder(d, bs)) == bs
  {
    SwapWordsInvolution(bs);
  }

  /** The raw integer a register buffer holds. */
  function RawInt(d: Definition, raw: seq<Byte>): (n: int)
    requires |raw| >= d.size.Width()
    ensures d.size.MinRaw() <= n <= d.size.MaxRaw()
  {
    ParseInt(d.size, WordOrder(d, raw))
  }

  /**
   * A raw integer as a logical value: its label when the register is
   * mapped (an unmapped integer is a decode error), otherwise, when it lies
   * within the raw bounds (else a decode error), the integer divided by
   * the factor.
   */
  function FromRaw(d: Definition, n: int): (r: Result<Value>)
    ensures r.Err? ==> r.error == DecodeError(n)
    ensures r.Ok? ==> Conforms(d, r.value)
    ensures Mapped(d) ==> (r.Err? <==> forall i :: 0 <= i < |Table(d)| ==> Table(d)[i].raw != n)
    ensures !Mapped(d) ==> (r.Err? <==> !InRawBounds(d, n))
    ensures Mapped(d) && r.Ok? ==> r.value == Label(LabelOf(Table(d), n).value)
    ensures !Mapped(d) && r.Ok? ==> r.value == Num(Unscale(n, d.factor))
  {
    if Mapped(d) then
      match LabelOf(Table(d), n)
      case Some(l) =>
        var i :| 0 <= i < |Table(d)| && Table(d)[i] == Entry(n, l);
        assert RawOf(Table(d), l).Some?;
        Ok(Label(l))
      case None => Err(DecodeError(n))
    else if InRawBounds(d, n) then
      var x := Unscale(n, d.factor);
      assert x * d.factor as real == n as real;
      EngBoundsAreRawBounds(d, x);
      Ok(Num(x))
    else
      Err(DecodeError(n))
  }

  /** Assigning `raw_value`: the raw integer the buffer holds, as a logical value. */
  function Decode(d: Definition, raw: seq<Byte>): (r: Result<Value>)
    requires |raw| >= d.size.Width()
    ensures r.Err? ==> r.error == DecodeError(RawInt(d, raw))
    ensures r.Ok? ==> Conforms(d, r.value)
    ensures Mapped(d) ==> (r.Ok? <==> LabelOf(Table(d), RawInt(d, raw)).Some?)
    ensures !Mapped(d) ==> (r.Ok? <==> InRawBounds(d, RawInt(d, raw)))
    ensures Mapped(d) && r.Ok? ==> r.value == Label(LabelOf(Table(d), RawInt(d, raw)).value)
    ensures !Mapped(d) && r.Ok? ==> r.value == Num(Unscale(RawInt(d, raw), d.factor))
  {
    FromRaw(d, RawInt(d, raw))
  }

  /**
   * Assigning `value`: a mapped register takes a label, compared without
   * regard to case and stored upper-cased; any other register takes a
   * number within `min`..`max`. Anything else is rejected at once.
   */
  function Assign(d: Definition, v: Value): (r: Result<Value>)
    ensures r.Err? ==> r.error == Rejected
    ensures r.Ok? ==> Conforms(d, r.value)
  {
    if Mapped(d) then
      if v.Label? && RawOf(Table(d), Upper(v.text)).Some? then Ok(Label(Upper(v.text)))
      else Err(Rejected)
    else if v.Num? && InEngBounds(d, v.number) then Ok(v)
    else Err(Rejected)
  }

  /**
   * The raw integer a stored value stands for: the key of its label, or
   * the value times the factor, rounded. A value that does not belong to
   * the register is an encode error.
   */
  function ToRawInt(d: Definition, v: Value): (r: Result<int>)
    ensures r.Err? ==> r.error == EncodeError
    ensures Conforms(d, v) ==> r.Ok?
  {
    if Mapped(d) then
      if v.Label? && RawOf(Table(d), v.text).Some? then Ok(RawOf(Table(d), v.text).value)
      else Err(EncodeError)
    else if v.Num? then Ok(ScaleRound(v.number, d.factor))
    else Err(EncodeError)
  }

  /** On a register without labels, a number stands for itself times the factor, rounded. */
  lemma NumberRawInt(d: Definition, x: real)
    requires !Mapped(d)
    ensures ToRawInt(d, Num(x)) == Ok(ScaleRound(x, d.factor))
  {
    var r := ToRawInt(d, Num(x));
    assert r.Ok? && r.value == ScaleRound(x, d.factor);
  }

  /**
   * Reading `raw_value`: the raw integer packed into the register's width
   * (an encode error when it does not fit), zero-filled to four bytes and
   * put in word order.
   */
  function Encode(d: Definition, v: Value): (r: Result<seq<Byte>>)
    ensures r.Err? ==> r.error == EncodeError
    ensures r.Ok? <==> ToRawInt(d, v).Ok? && d.size.MinRaw() <= ToRawInt(d, v).value <= d.size.MaxRaw()
    ensures r.Ok? ==> |r.value| == 4 && RawInt(d, r.value) == ToRawInt(d, v).value
    ensures r.Ok? ==> forall i :: d.size.Width() <= i < 4 ==> WordOrder(d, r.value)[i] == 0
  {
    match ToRawInt(d, v)
    case Err(e) => Err(e)
    case Ok(n) =>
      match BuildInt(d.size, n)
      case Err(e) => Err(e)
      case Ok(bs) =>
        var filled := ZeroFill(bs, 4);
        var out := WordOrder(d, filled);
        WordOrderInvolution(d, filled);
        assert filled[..d.size.Width()] == bs;
        Ok(out)
  }

  // ---------------------------------------------------------------------
  // Properties relating the two directions
  // ---------------------------------------------------------------------

  /** A value the register can hold is accepted unchanged by assignment. */
  lemma ConformingValueIsAccepted(d: Definition, v: Value)
    requires Conforms(d, v)
    ensures Assign(d, v) == Ok(v)
  {
    if Mapped(d) {
      var t := Table(d);
      var i :| 0 <= i < |t| && t[i] == Entry(RawOf(t, v.text).value, v.text);
      assert Upper(v.text) == v.text;
    }
  }

  /** Assignment is idempotent: assigning the stored value again changes nothing. */
  lemma AssignIdempotent(d: Definition, v: Value)
    requires Assign(d, v).Ok?
    ensures Assign(d, Assign(d, v).value) == Assign(d, v)
  {
    ConformingValueIsAccepted(d, Assign(d, v).value);
  }

  /** On a mapped register, a label whose upper case is a label of the table is stored upper-cased. */
  lemma AssignKnownLabel(d: Definition, s: string)
    requires Mapped(d) && RawOf(Table(d), Upper(s)).Some?
    ensures Assign(d, Label(s)) == Ok(Label(Upper(s)))
  {
  }

  /** On a mapped register, a label whose upper case is not a label of the table is rejected. */
  lemma AssignUnknownLabel(d: Definition, s: string)
    requires Mapped(d) && RawOf(Table(d), Upper(s)).None?
    ensures Assign(d, Label(s)) == Err(Rejected)
  {
  }

  /**
   * Labels are compared without regard to case: a label is accepted
   * exactly when it equals, once upper-cased, an upper-cased label of the
   * configured mapping, and the stored value is its upper-cased form.
   */
  lemma AssignLabelIgnoresCase(d: Definition, s: string)
    requires |d.mappings| > 0
    ensures Assign(d, Label(s)).Ok? <==>
      exists i :: 0 <= i < |d.mappings| && Upper(d.mappings[i].display) == Upper(s)
    ensures Assign(d, Label(s)).Ok? ==> Assign(d, Label(s)).value == Label(Upper(s))
  {
    var t := Table(d);
    if exists i :: 0 <= i < |d.mappings| && Upper(d.mappings[i].display) == Upper(s) {
      var i :| 0 <= i < |d.mappings| && Upper(d.mappings[i].display) == Upper(s);
      assert t[i].display == Upper(s);
    }
  }

  /** On a register without labels, a number is accepted exactly within `min`..`max`, bounds included. */
  lemma AssignNumberWithinBounds(d: Definition, x: real)
    requires !Mapped(d)
    ensures Assign(d, Num(x)).Ok? <==>
      (d.rawMin.None? || d.rawMin.value as real <= x * d.factor as real) &&
      (d.rawMax.None? || x * d.factor as real <= d.rawMax.value as real)
    ensures Assign(d, Num(x)).Ok? ==> Assign(d, Num(x)).value == Num(x)
  {
    EngBoundsAreRawBounds(d, x);
  }

  /**
   * On a register without labels, an accepted number fails to encode
   * exactly when its scaled, rounded value overflows the register.
   */
  lemma EncodeOverflow(d: Definition, x: real)
    requires !Mapped(d)
    ensures Encode(d, Num(x)).Err? <==>
      !(d.size.MinRaw() <= ScaleRound(x, d.factor) <= d.size.MaxRaw())
  {
    NumberRawInt(d, x);
  }

  /**
   * Encode then decode, mapped register: a label the register holds reads
   * back from its own encoding as itself.
   */
  lemma EncodeThenDecodeLabel(d: Definition, v: Value, out: seq<Byte>)
    requires DistinctKeys(d.mappings)
    requires Mapped(d) && Conforms(d, v)
    requires Encode(d, v) == Ok(out)
    ensures Decode(d, out) == Ok(v)
  {
    var t := Table(d);
    var n := RawOf(t, v.text).value;
    assert ToRawInt(d, v) == Ok(n);
    assert RawInt(d, out) == n;
    RawOfThenLabelOf(t, v.text);
  }

  /**
   * Encode then decode, numeric register: a number within `min`..`max`
   * reads back from its own encoding as its scaled, rounded value divided
   * by the factor.
   */
  lemma EncodeThenDecodeNumber(d: Definition, x: real, out: seq<Byte>)
    requires !Mapped(d) && InEngBounds(d, x)
    requires Encode(d, Num(x)) == Ok(out)
    ensures Decode(d, out) == Ok(Num(Unscale(ScaleRound(x, d.factor), d.factor)))
  {
    var n := ScaleRound(x, d.factor);
    NumberRawInt(d, x);
    assert RawInt(d, out) == n;
    RoundedWithinRawBounds(d, x);
  }

  /**
   * The canonical four-byte form of a register buffer: its leading
   * width bytes, zero-filled, in word order.
   */
  function Canonical(d: Definition, raw: seq<Byte>): (r: seq<Byte>)
    requires |raw| >= d.size.Width()
    ensures |r| == 4 && RawInt(d, r) == RawInt(d, raw)
  {
    var lead := WordOrder(d, raw)[..d.size.Width()];
    var filled := ZeroFill(lead, 4);
    WordOrderInvolution(d, filled);
    assert filled[..d.size.Width()] == lead;
    WordOrder(d, filled)
  }

  /** Encoding the raw integer of a buffer gives back the buffer's canonical form. */
  lemma EncodeRawInt(d: Definition, raw: seq<Byte>, v: Value)
    requires |raw| >= d.size.Width()
    requires ToRawInt(d, v) == Ok(RawInt(d, raw))
    ensures Encode(d, v) == Ok(Canonical(d, raw))
  {
    var lead := WordOrder(d, raw)[..d.size.Width()];
    LeadingBytesBuild(d, raw);
    assert BuildInt(d.size, RawInt(d, raw)) == Ok(lead);
  }

  /** The raw integer of a buffer packs back into the buffer's leading bytes in word order. */
  lemma LeadingBytesBuild(d: Definition, raw: seq<Byte>)
    requires |raw| >= d.size.Width()
    ensures BuildInt(d.size, RawInt(d, raw)) == Ok(WordOrder(d, raw)[..d.size.Width()])
  {
    var lead := WordOrder(d, raw)[..d.size.Width()];
    assert lead[..d.size.Width()] == lead;
    assert ParseInt(d.size, lead) == RawInt(d, raw);
    ParseBuildRoundTrip(d.size, lead);
  }

  /**
   * Decode then encode, mapped register: with distinct labels, a decoded
   * label is accepted back by assignment unchanged and encodes to the
   * buffer's canonical form.
   */
  lemma DecodeThenEncodeLabel(d: Definition, raw: seq<Byte>, v: Value)
    requires |raw| >= d.size.Width()
    requires Mapped(d) && DistinctLabels(Table(d))
    requires Decode(d, raw) == Ok(v)
    ensures Assign(d, v) == Ok(v)
    ensures Encode(d, v) == Ok(Canonical(d, raw))
  {
    ConformingValueIsAccepted(d, v);
    var n := RawInt(d, raw);
    LabelOfThenRawOf(Table(d), n);
    assert ToRawInt(d, v) == Ok(n);
    EncodeRawInt(d, raw, v);
  }

  /**
   * Decode then encode, numeric register: a decoded number is accepted
   * back by assignment unchanged and encodes to the buffer's canonical
   * form.
   */
  lemma DecodeThenEncodeNumber(d: Definition, raw: seq<Byte>, v: Value)
    requires |raw| >= d.size.Width()
    requires !Mapped(d)
    requires Decode(d, raw) == Ok(v)
    ensures Assign(d, v) == Ok(v)
    ensures Encode(d, v) == Ok(Canonical(d, raw))
  {
    ConformingValueIsAccepted(d, v);
    var n := RawInt(d, raw);
    assert v == Num(Unscale(n, d.factor));
    ScaleBack(n, d.factor);
    NumberRawInt(d, v.number);
    EncodeRawInt(d, raw, v);
  }

  /**
   * Decoding reads only the register's leading bytes: on a 1- or 2-byte
   * register, or in the default word order, bytes past the width do not
   * change the result.
   */
  lemma DecodeReadsLeadingBytes(d: Definition, raw: seq<Byte>, extra: seq<Byte>)
    requires d.size.Width() < 4 || d.wordSwap
    requires |raw| == d.size.Width()
    ensures Decode(d, raw + extra) == Decode(d, raw)
  {
    assert (raw + extra)[..d.size.Width()] == raw[..d.size.Width()];
    assert RawInt(d, raw + extra) == RawInt(d, raw);
  }
}
