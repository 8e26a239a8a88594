/** Decoding of the specification that the litmus-test compiler plants in the
    SASS code (optcheck.py `isspecn`, `getordn`, `gettypn`, `isspeccand`,
    `split_add_inst`, `get_spec_item`).

    A specification item is carried by an `IADD32I` or `LOP32I.XOR`
    instruction whose third operand is a hexadecimal immediate: bits 16-31 hold
    the tag 0x7F3A, bits 8-15 the instruction-map index ("type") and bits 4-7
    the position of the item in its thread's chain ("order"). The second
    operand is the link register that ties the item to a memory instruction. */
module SpecDecode {
  import opened Wrappers
  import opened Strings
  import opened Sass

  /** The tag that marks an immediate as a specification item. */
  const Tag: nat := 0x7F3A

  // ---------------------------------------------------------------------------
  // Bit fields. Python's `&` with a positive mask followed by `>>` is floor
  // division and floor remainder by powers of two, which is what Dafny's `/`
  // and `%` compute for a positive divisor, for negative numbers too.

  /** `(num & 0xffff0000) >> 16` */
  function TagField(n: int): (r: nat)
    ensures r < 0x1_0000
  {
    (n / 0x1_0000) % 0x1_0000
  }

  /** `isspecn` */
  predicate IsSpecN(n: int) {
    TagField(n) == Tag
  }

  /** `getordn`: `(num & 0xf0) >> 4` */
  function OrdN(n: int): (r: nat)
    ensures r < 16
  {
    (n / 0x10) % 0x10
  }

  /** `gettypn`: `(num & 0xff00) >> 8` */
  function TypN(n: int): (r: nat)
    ensures r < 256
  {
    (n / 0x100) % 0x100
  }

  /** The immediate the compiler plants for type `typ` and order `ord`; the
      low four bits are not read by the checker. */
  function Immediate(typ: nat, ord: nat, low: nat): nat
    requires typ < 256 && ord < 16 && low < 16
  {
    Tag * 0x1_0000 + typ * 0x100 + ord * 0x10 + low
  }

  /** Division with a remainder below the divisor, for the three field
      widths the decoder uses. */
  lemma DivModUnique(a: int, d: int, b: int)
    requires d == 0x10 || d == 0x100 || d == 0x1_0000
    requires 0 <= b < d
    ensures (a * d + b) / d == a && (a * d + b) % d == b
  {
    if d == 0x10 {
      assert (a * 0x10 + b) / 0x10 == a;
    } else if d == 0x100 {
      assert (a * 0x100 + b) / 0x100 == a;
    } else {
      assert (a * 0x1_0000 + b) / 0x1_0000 == a;
    }
  }

  /** Whatever lies above bit 31, an immediate built from a type and an order
      is recognised as a specification item and decodes back to both. */
  lemma ImmediateDecodes(typ: nat, ord: nat, low: nat, high: int)
    requires typ < 256 && ord < 16 && low < 16
    ensures IsSpecN(high * 0x1_0000_0000 + Immediate(typ, ord, low))
    ensures TypN(high * 0x1_0000_0000 + Immediate(typ, ord, low)) == typ
    ensures OrdN(high * 0x1_0000_0000 + Immediate(typ, ord, low)) == ord
  {
    var n := high * 0x1_0000_0000 + Immediate(typ, ord, low);
    var rest16 := typ * 0x100 + ord * 0x10 + low;
    assert n == (high * 0x1_0000 + Tag) * 0x1_0000 + rest16;
    DivModUnique(high * 0x1_0000 + Tag, 0x1_0000, rest16);
    DivModUnique(high, 0x1_0000, Tag);
    var rest8 := ord * 0x10 + low;
    assert n == (high * 0x100_0000 + Tag * 0x100 + typ) * 0x100 + rest8;
    DivModUnique(high * 0x100_0000 + Tag * 0x100 + typ, 0x100, rest8);
    DivModUnique(high * 0x1_0000 + Tag, 0x100, typ);
    assert n == (high * 0x1000_0000 + Tag * 0x1000 + typ * 0x10 + ord) * 0x10 + low;
    DivModUnique(high * 0x1000_0000 + Tag * 0x1000 + typ * 0x10 + ord, 0x10, low);
    DivModUnique(high * 0x100_0000 + Tag * 0x100 + typ, 0x10, ord);
  }

  // ---------------------------------------------------------------------------
  // `int(s, 16)`: an optional sign, an optional `0x`/`0X` prefix that may be
  // followed by one underscore, and hexadecimal digits with single
  // underscores allowed between them.

  function HexDigitValue(c: char): (r: Option<nat>)
    ensures r.Some? ==> r.value < 16
  {
    if '0' <= c <= '9' then Some(c as int - '0' as int)
    else if 'a' <= c <= 'f' then Some(c as int - 'a' as int + 10)
    else if 'A' <= c <= 'F' then Some(c as int - 'A' as int + 10)
    else None
  }

  /** The value of a digit string such as `7f3a_0010`. */
  function HexDigits(s: string): Option<nat>
    decreases |s|
  {
    if |s| == 0 then None
    else match HexDigitValue(s[|s| - 1])
      case None => None
      case Some(d) =>
        if |s| == 1 then Some(d)
        else
          var init := s[..|s| - 1];
          var init' := if init[|init| - 1] == '_' then init[..|init| - 1] else init;
          match HexDigits(init')
          case None => None
          case Some(v) => Some(16 * v + d)
  }

  /** `int(s, 16)` on an already stripped string; `None` for a `ValueError`. */
  function ParseHexInt(s: string): Option<int> {
    var neg := |s| > 0 && s[0] == '-';
    var t := if |s| > 0 && (s[0] == '-' || s[0] == '+') then s[1..] else s;
    var body :=
      if |t| >= 2 && t[0] == '0' && (t[1] == 'x' || t[1] == 'X') then
        (if |t| >= 3 && t[2] == '_' then t[3..] else t[2..])
      else t;
    match HexDigits(body)
    case None => None
    case Some(v) =>
      var x: int := if neg then -(v as int) else v;
      Some(x)
  }

  function HexChar(d: nat): char
    requires d < 16
  {
    if d < 10 then ('0' as int + d) as char else ('a' as int + d - 10) as char
  }

  /** Lower-case hexadecimal rendering without prefix, as `'%x' % n`. */
  function HexString(n: nat): (r: string)
    ensures |r| >= 1
    ensures forall i :: 0 <= i < |r| ==> HexDigitValue(r[i]).Some?
  {
    if n < 16 then [HexChar(n)] else HexString(n / 16) + [HexChar(n % 16)]
  }

  lemma HexCharValue(d: nat)
    requires d < 16
    ensures HexDigitValue(HexChar(d)) == Some(d)
  {
  }

  lemma {:induction false} HexStringDigits(n: nat)
    ensures HexDigits(HexString(n)) == Some(n)
    decreases n
  {
    var s := HexString(n);
    if n < 16 {
      HexCharValue(n);
    } else {
      HexCharValue(n % 16);
      var init := HexString(n / 16);
      assert s[..|s| - 1] == init;
      assert s[|s| - 1] == HexChar(n % 16);
      assert HexDigitValue(init[|init| - 1]).Some?;
      HexStringDigits(n / 16);
    }
  }

  /** `int('0x' + ('%x' % n), 16) == n` */
  lemma HexRoundTrip(n: nat)
    ensures ParseHexInt("0x" + HexString(n)) == Some(n)
  {
    var s := "0x" + HexString(n);
    assert s[2..] == HexString(n);
    assert HexDigitValue(s[2]).Some?;
    HexStringDigits(n);
  }

  // ---------------------------------------------------------------------------
  // Carrier instructions.

  /** `isspeccand`: the line starts with one of the carrier opcodes. */
  predicate IsSpecCand(s: string) {
    StartsWith(s, Carriers[0]) || StartsWith(s, Carriers[1])
  }

  /** The instruction with white space and trailing semicolons removed. */
  function Trimmed(ins: string): string {
    RStripChar(Strip(ins), ';')
  }

  /** Trimming never cuts into the carrier opcode a candidate starts with. */
  lemma TrimmedKeepsOpcode(ins: string, op: string)
    requires op in Carriers && StartsWith(ins, op)
    ensures StartsWith(Trimmed(ins), op)
  {
    assert !IsSpace(op[0]) && !IsSpace(op[|op| - 1]) && op[|op| - 1] != ';';
    TrimmedKeepsPrefix(ins, op);
  }

  /** Trimming keeps a prefix that starts and ends with a character it would
      not strip. */
  lemma TrimmedKeepsPrefix(ins: string, p: string)
    requires |p| > 0 && StartsWith(ins, p)
    requires !IsSpace(p[0]) && !IsSpace(p[|p| - 1]) && p[|p| - 1] != ';'
    ensures StartsWith(Trimmed(ins), p)
  {
    assert p[0] == ins[0];
    assert LStrip(ins) == ins;
    var r := RStrip(ins);
    RStripSlice(ins);
    assert |r| >= |p|;
    assert r[..|p|] == ins[..|p|];
    var t := RStripChar(r, ';');
    RStripCharSlice(r, ';');
    assert |t| >= |p|;
    assert t[..|p|] == r[..|p|];
  }

  /** The carrier opcode at the start of the trimmed instruction. */
  function CarrierOf(ins: string): (op: string)
    requires IsSpecCand(ins)
    ensures op in Carriers && StartsWith(Trimmed(ins), op)
    ensures op == Carriers[0] <==> StartsWith(Trimmed(ins), Carriers[0])
  {
    if StartsWith(ins, Carriers[0]) then
      TrimmedKeepsOpcode(ins, Carriers[0]);
      Carriers[0]
    else
      TrimmedKeepsOpcode(ins, Carriers[1]);
      var t := Trimmed(ins);
      assert t[..|Carriers[1]|] == Carriers[1];
      assert t[0] == Carriers[1][0] != Carriers[0][0];
      Carriers[1]
  }

  /** The comma-separated operands of a carrier (`ins.replace(spec, "", 1)`
      removes the opcode, which the trimmed instruction starts with). */
  function CarrierOperands(ins: string): (r: seq<string>)
    requires IsSpecCand(ins)
    ensures |r| >= 1
  {
    var op := CarrierOf(ins);
    Split(Trimmed(ins)[|op|..], ',')
  }

  /** `split_add_inst`: the immediate and the link register of a carrier; the
      failing `assert` on the operand count and the `ValueError` of `int` are
      errors. */
  function SplitAddInst(ins: string): Result<(int, string), Fault>
    requires IsSpecCand(ins)
  {
    var items := CarrierOperands(ins);
    if |items| != 3 then Err(BadCarrierOperands)
    else match ParseHexInt(Strip(items[2]))
      case None => Err(BadImmediate)
      case Some(num) => Ok((num, Strip(items[1])))
  }

  /** A decoded specification item: `(typ, order, reg)`. */
  datatype SpecItem = SpecItem(typ: nat, ord: nat, reg: string)

  /** `get_spec_item`: `Ok(None)` for a line that is not a specification
      item, the item for one that is, and an error for a malformed carrier. */
  function GetSpecItem(ins: string): (r: Result<Option<SpecItem>, Fault>)
    ensures !IsSpecCand(ins) ==> r == Ok(None)
    ensures r.Ok? && r.value.Some? ==> r.value.value.typ < 256 && r.value.value.ord < 16
    ensures r.Err? ==> r.error == BadCarrierOperands || r.error == BadImmediate
    ensures IsSpecCand(ins) && |CarrierOperands(ins)| != 3 ==> r == Err(BadCarrierOperands)
    ensures IsSpecCand(ins) && SplitAddInst(ins).Ok? ==>
      var (n, reg) := SplitAddInst(ins).value;
      && r.Ok? && (r.value.Some? <==> IsSpecN(n))
      && (r.value.Some? ==> r.value.value == SpecItem(TypN(n), OrdN(n), reg))
  {
    if !IsSpecCand(ins) then Ok(None)
    else match SplitAddInst(ins)
      case Err(e) => Err(e)
      case Ok((num, reg)) =>
        if !IsSpecN(num) then Ok(None)
        else Ok(Some(SpecItem(TypN(num), OrdN(num), reg)))
  }

  /** An operand without surrounding white space or commas. */
  predicate IsOperand(s: string) {
    |s| > 0 && !IsSpace(s[0]) && !IsSpace(s[|s| - 1]) && ',' !in s
  }

  /** A carrier as the compiler writes it: `IADD32I R1, R2, 0x7f3a0110;`. */
  function CarrierText(op: string, dst: string, reg: string, imm: nat): string {
    op + " " + dst + ", " + reg + ", 0x" + HexString(imm) + ";"
  }

  lemma StripLeadingBlank(s: string)
    requires |s| > 0 && !IsSpace(s[0]) && !IsSpace(s[|s| - 1])
    ensures Strip(" " + s) == s
  {
    assert (" " + s)[1..] == s;
    assert LStrip(" " + s) == LStrip(s) == s;
  }

  /** A string of hexadecimal digits. */
  predicate IsHexDigits(s: string) {
    |s| > 0 && forall i :: 0 <= i < |s| ==> HexDigitValue(s[i]).Some?
  }

  lemma TrimmedCarrier(op: string, dst: string, reg: string, hex: string)
    requires op in Carriers && IsHexDigits(hex)
    ensures Trimmed(op + " " + dst + ", " + reg + ", 0x" + hex + ";")
         == op + " " + dst + ", " + reg + ", 0x" + hex
  {
    var body := op + " " + dst + ", " + reg + ", 0x" + hex;
    var ins := body + ";";
    assert ins[0] == op[0];
    StripNoSpace(ins);
    assert body[|body| - 1] == hex[|hex| - 1];
    assert HexDigitValue(body[|body| - 1]).Some?;
    assert ins[..|ins| - 1] == body;
    assert RStripChar(body, ';') == body;
  }

  lemma CarrierFields(op: string, dst: string, reg: string, hex: string)
    requires op in Carriers && ',' !in dst && ',' !in reg && IsHexDigits(hex)
    ensures var body := op + " " + dst + ", " + reg + ", 0x" + hex;
      Split(body[|op|..], ',') == [" " + dst, " " + reg, " 0x" + hex]
  {
    var body := op + " " + dst + ", " + reg + ", 0x" + hex;
    var f0, f1, f2 := " " + dst, " " + reg, " 0x" + hex;
    assert body[|op|..] == f0 + ([','] + (f1 + ([','] + f2)));
    JoinTwo(f1, f2, [',']);
    JoinCons(f0, [f1, f2], [',']);
    assert [f0] + [f1, f2] == [f0, f1, f2];
    assert Join([f0, f1, f2], [',']) == f0 + [','] + (f1 + [','] + f2);
    assert Join([f0, f1, f2], [',']) == body[|op|..];
    assert ',' !in hex by {
      forall i | 0 <= i < |hex| ensures hex[i] != ',' {
        assert HexDigitValue(hex[i]).Some?;
      }
    }
    assert ',' !in f2 by {
      forall i | 0 <= i < |f2| ensures f2[i] != ',' {
        if i >= 3 { assert f2[i] == hex[i - 3]; }
      }
    }
    assert ',' !in f0 && ',' !in f1;
    SplitJoin([f0, f1, f2], ',');
  }

  lemma StripImmediate(hex: string)
    requires IsHexDigits(hex)
    ensures Strip(" 0x" + hex) == "0x" + hex
  {
    var s := "0x" + hex;
    assert s[|s| - 1] == hex[|hex| - 1];
    assert HexDigitValue(s[|s| - 1]).Some?;
    StripLeadingBlank(s);
    assert " 0x" + hex == " " + s;
  }

  /** A carrier's text is a candidate whose trimmed form drops only the
      semicolon and whose opcode is the one it was built with. */
  lemma CarrierOfText(op: string, dst: string, reg: string, n: nat)
    requires op in Carriers
    ensures IsSpecCand(CarrierText(op, dst, reg, n))
    ensures Trimmed(CarrierText(op, dst, reg, n)) == op + " " + dst + ", " + reg + ", 0x" + HexString(n)
    ensures CarrierOf(CarrierText(op, dst, reg, n)) == op
  {
    var hex := HexString(n);
    var ins := CarrierText(op, dst, reg, n);
    var body := op + " " + dst + ", " + reg + ", 0x" + hex;
    assert ins == body + ";";
    assert StartsWith(ins, op) by { assert ins[..|op|] == op; }
    TrimmedCarrier(op, dst, reg, hex);
    if op == Carriers[1] { assert body[0] == 'L'; }
  }

  lemma CarrierOperandsOf(op: string, dst: string, reg: string, n: nat)
    requires op in Carriers && ',' !in dst && ',' !in reg
    ensures IsSpecCand(CarrierText(op, dst, reg, n))
    ensures CarrierOperands(CarrierText(op, dst, reg, n)) == [" " + dst, " " + reg, " 0x" + HexString(n)]
  {
    CarrierOfText(op, dst, reg, n);
    CarrierFields(op, dst, reg, HexString(n));
  }

  lemma SplitCarrier(op: string, dst: string, reg: string, n: nat)
    requires op in Carriers && ',' !in dst && IsOperand(reg)
    ensures IsSpecCand(CarrierText(op, dst, reg, n))
    ensures SplitAddInst(CarrierText(op, dst, reg, n)) == Ok((n as int, reg))
  {
    var hex := HexString(n);
    CarrierOperandsOf(op, dst, reg, n);
    var items := CarrierOperands(CarrierText(op, dst, reg, n));
    StripLeadingBlank(reg);
    StripImmediate(hex);
    HexRoundTrip(n);
    assert |items| == 3 && Strip(items[1]) == reg && Strip(items[2]) == "0x" + hex;
  }

  /** Every carrier the compiler plants decodes to the type, order and
      register it was built from. */
  lemma CarrierRoundTrip(op: string, dst: string, reg: string, typ: nat, ord: nat, low: nat)
    requires op in Carriers && ',' !in dst && IsOperand(reg)
    requires typ < 256 && ord < 16 && low < 16
    ensures GetSpecItem(CarrierText(op, dst, reg, Immediate(typ, ord, low))) == Ok(Some(SpecItem(typ, ord, reg)))
  {
    var n := Immediate(typ, ord, low);
    var ins := CarrierText(op, dst, reg, n);
    SplitCarrier(op, dst, reg, n);
    ImmediateDecodes(typ, ord, low, 0);
    assert IsSpecN(n) && TypN(n) == typ && OrdN(n) == ord;
    assert SplitAddInst(ins) == Ok((n as int, reg));
  }

  /** A carrier whose immediate lacks the tag is an ordinary instruction:
      it gives no item and no error. */
  lemma UntaggedIgnored(op: string, dst: string, reg: string, n: nat)
    requires op in Carriers && ',' !in dst && IsOperand(reg)
    requires TagField(n) != Tag
    ensures GetSpecItem(CarrierText(op, dst, reg, n)) == Ok(None)
  {
    SplitCarrier(op, dst, reg, n);
  }
}
