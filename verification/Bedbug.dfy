/** Operands of the PowerPC assembler and disassembler of common/bedbug.c. */
module Bedbug {
  import opened Arithmetic
  import opened CText
  import opened Words

  type long = x: int | -0x8000_0000 <= x < 0x8000_0000

  /** 32 bits as a signed number. */
  function Signed(x: int): long {
    var u := x % TWO32;
    if u >= 0x8000_0000 then u - TWO32 else u
  }

  /** The hints that matter; an operand has at most one of them. */
  datatype Kind = Silent | Address | Register | SpecialRegister | Plain

  /** An operand of the table: its field is `bits` wide and starts at bit `shift`. */
  datatype Operand = Operand(field: nat, kind: Kind, bits: nat, shift: nat)

  datatype Opcode = Opcode(opcode: Word, operands: seq<Operand>, relative: bool)

  datatype Assembly = Assembled(instr: Word) | BadRegister | BadSpecialRegister | TooFewOperands

  /** The field lies in the word. In the table addresses have at most 24 bits, registers and special
      registers at most 10, and other operands at most 16, so that the narrowing to sixteen bits in
      the listing loses nothing. */
  predicate Placed(o: Operand) {
    && 0 < o.bits && o.shift + o.bits <= 32
    && o.bits <= match o.kind case Address => 29 case Plain => 16 case Silent => 16 case _ => 15
  }

  predicate InField(o: Operand, k: nat) { o.shift <= k < o.shift + o.bits }

  predicate Apart(o: Operand, p: Operand) { o.shift + o.bits <= p.shift || p.shift + p.bits <= o.shift }

  // ---------- one operand ----------

  /** The field of an address: the word distance without its top bits, and the sign on top. */
  function SignSplit(distance: int, half: nat): int
    requires half > 0
  {
    (distance / 4) % half + if distance < 0 then half else 0
  }

  /** The distance a field shows. */
  function SignExtended(field: int, half: nat): int { (if field >= half then field - 2 * half else field) * 4 }

  function Distance(o: Operand, relative: bool, memaddr: u32, value: long): long {
    if relative then Signed(value - memaddr) else value
  }

  /** A number in the operand's field, cut to its width, with all other bits clear. */
  function Shifted(o: Operand, data: int): Word
    requires Placed(o)
  {
    seq(32, k requires 0 <= k < 32 => InField(o, k) && Bits(data)[k - o.shift])
  }

  /** parse_operand, on the number read from the operand's text. */
  function ParseOperand(memaddr: u32, relative: bool, o: Operand, value: long): Assembly
    requires Placed(o)
  {
    match o.kind
    case Address => Assembled(Shifted(o, SignSplit(Distance(o, relative, memaddr, value), Pow2(o.bits - 1))))
    case Register => if value > 31 then BadRegister else Assembled(Shifted(o, value))
    case SpecialRegister => if value == 0 then BadSpecialRegister else Assembled(Shifted(o, value))
    case _ => Assembled(Shifted(o, value))
  }

  /** The number in the operand's field of an instruction. */
  function Field(instr: Word, o: Operand): nat
    requires Placed(o)
  {
    Number(seq(32, k requires 0 <= k < 32 => k < o.bits && instr[o.shift + k]), o.bits)
  }

  /** The value that print_operands shows, as a signed number. */
  function ShownOperand(virtual: u32, relative: bool, o: Operand, instr: Word): long
    requires Placed(o)
  {
    var operand := Field(instr, o);
    if o.kind == Address then
      Signed(SignExtended(operand, Pow2(o.bits - 1)) + if relative then virtual else 0)
    else Signed(operand)
  }

  /** The values that fit an operand. */
  predicate Fits(memaddr: u32, relative: bool, o: Operand, value: long) {
    match o.kind
    case Address =>
      var distance := Distance(o, relative, memaddr, value);
      distance % 4 == 0 && 0 - Pow2(o.bits + 1) <= distance < Pow2(o.bits + 1)
    case Register => 0 <= value <= 31 && value < Pow2(o.bits)
    case SpecialRegister => 0 < value < Pow2(o.bits)
    case _ => 0 <= value < Pow2(o.bits)
  }

  /** A field set by Shifted reads back as the number, modulo its width. */
  lemma FieldOfShifted(instr: Word, o: Operand, data: int)
    requires Placed(o) && forall k :: 0 <= k < 32 && InField(o, k) ==> instr[k] == Shifted(o, data)[k]
    ensures Field(instr, o) == data % Pow2(o.bits)
  {
    var w: Word := seq(32, k requires 0 <= k < 32 => k < o.bits && instr[o.shift + k]);
    forall k | 0 <= k < o.bits ensures w[k] == Bits(data)[k] {
      assert instr[o.shift + k] == Shifted(o, data)[o.shift + k];
    }
    NumberOfSame(w, Bits(data), o.bits);
    NumberOfBits(data, o.bits);
  }

  /** A distance survives both exactly if it is a word distance in range. */
  lemma SplitAndExtend(distance: int, half: nat)
    requires half > 0
    ensures 0 <= SignSplit(distance, half) < 2 * half
    ensures -4 * half <= SignExtended(SignSplit(distance, half), half) < 4 * half
    ensures SignExtended(SignSplit(distance, half), half) == distance
       <==> distance % 4 == 0 && -4 * half <= distance < 4 * half
  {
    var q := distance / 4;
    if 0 - half <= q < half {
      if q < 0 {
        assert q == half * -1 + (q + half);
        DivIs(q, half, -1, q + half);
      } else {
        assert q == half * 0 + q;
        DivIs(q, half, 0, q);
      }
    }
  }

  lemma SignedSum(e: int, memaddr: u32, value: long)
    requires -0x4000_0000 <= e < 0x4000_0000
    ensures Signed(e + memaddr) == value <==> e == Signed(value - memaddr)
    ensures Signed(e) == e
  {
  }

  lemma FieldLimit(bits: nat)
    requires 0 < bits <= 29
    ensures Pow2(bits + 1) == 4 * Pow2(bits - 1) <= 0x4000_0000
    ensures Pow2(bits) == 2 * Pow2(bits - 1)
  {
    assert Pow2(6) == 64;
    assert Pow2(14) == 0x4000;
    assert Pow2(22) == 0x40_0000;
    assert Pow2(30) == 0x4000_0000;
    if bits + 1 < 30 { Pow2Grows(bits + 1, 30); }
  }

  /** An operand that is accepted reads back exactly if its value fits. */
  lemma OperandSurvives(memaddr: u32, relative: bool, o: Operand, value: long, instr: Word)
    requires Placed(o) && ParseOperand(memaddr, relative, o, value).Assembled?
    requires forall k :: 0 <= k < 32 && InField(o, k) ==> instr[k] == ParseOperand(memaddr, relative, o, value).instr[k]
    ensures ShownOperand(memaddr, relative, o, instr) == value <==> Fits(memaddr, relative, o, value)
  {
    hide Pow2, Bits, Field, Shifted, Signed, SignSplit, SignExtended;
    FieldLimit(o.bits);
    if o.kind == Address {
      var half, distance := Pow2(o.bits - 1), Distance(o, relative, memaddr, value);
      var field := SignSplit(distance, half);
      SplitAndExtend(distance, half);
      FieldOfShifted(instr, o, field);
      SmallMod(field, Pow2(o.bits));
      SignedSum(SignExtended(field, half), memaddr, value);
      SignedSum(SignExtended(field, half), 0, value);
    } else {
      FieldOfShifted(instr, o, value);
      SmallMod(value, Pow2(o.bits));
      SignedSum(value % Pow2(o.bits), 0, value);
    }
  }

  // ---------- a whole instruction ----------

  function Or(v: Word, w: Word): Word { seq(32, k requires 0 <= k < 32 => v[k] || w[k]) }

  /** The operand loop of asmppc: operands still to read, values still to come, word so far. */
  function Assembling(memaddr: u32, relative: bool, operands: seq<Operand>, values: seq<long>, instr: Word): Assembly
    requires forall o :: o in operands ==> Placed(o)
  {
    if operands == [] then Assembled(instr)
    else if operands[0].kind == Silent then Assembling(memaddr, relative, operands[1..], values, instr)
    else if values == [] then TooFewOperands
    else
      var param := ParseOperand(memaddr, relative, operands[0], values[0]);
      if !param.Assembled? then param
      else Assembling(memaddr, relative, operands[1..], values[1..], Or(instr, param.instr))
  }

  /** What the disassembler lists for an instruction. */
  function Listed(virtual: u32, relative: bool, operands: seq<Operand>, instr: Word): seq<long>
    requires forall o :: o in operands ==> Placed(o)
  {
    if operands == [] then []
    else if operands[0].kind == Silent then Listed(virtual, relative, operands[1..], instr)
    else [ShownOperand(virtual, relative, operands[0], instr)] + Listed(virtual, relative, operands[1..], instr)
  }

  /** How many operands are written out. */
  function Written(operands: seq<Operand>): nat {
    if operands == [] then 0 else (if operands[0].kind == Silent then 0 else 1) + Written(operands[1..])
  }

  predicate AllFit(memaddr: u32, relative: bool, operands: seq<Operand>, values: seq<long>) {
    operands == []
    || if operands[0].kind == Silent then AllFit(memaddr, relative, operands[1..], values)
       else values != [] && Fits(memaddr, relative, operands[0], values[0])
            && AllFit(memaddr, relative, operands[1..], values[1..])
  }

  /** What the opcode table promises: written operands have fields of their own, and the opcode
      leaves them clear. */
  predicate WellFormed(operands: seq<Operand>, instr: Word) {
    && (forall i :: 0 <= i < |operands| ==> Placed(operands[i]))
    && (forall i, j :: 0 <= i < j < |operands| && operands[i].kind != Silent && operands[j].kind != Silent
          ==> Apart(operands[i], operands[j]))
    && (forall i, k :: 0 <= i < |operands| && operands[i].kind != Silent && 0 <= k < 32 && InField(operands[i], k)
          ==> !instr[k])
  }

  predicate Touched(operands: seq<Operand>, k: nat) {
    exists i :: 0 <= i < |operands| && operands[i].kind != Silent && InField(operands[i], k)
  }

  lemma ParamInField(memaddr: u32, relative: bool, o: Operand, value: long, k: nat)
    requires Placed(o) && k < 32 && !InField(o, k) && ParseOperand(memaddr, relative, o, value).Assembled?
    ensures !ParseOperand(memaddr, relative, o, value).instr[k]
  {
  }

  /** Operands leave the bits outside their fields alone. */
  lemma {:induction false} AssemblingKeeps(memaddr: u32, relative: bool, operands: seq<Operand>, values: seq<long>,
                                           instr: Word, k: nat)
    requires forall o :: o in operands ==> Placed(o)
    requires k < 32 && !Touched(operands, k)
    ensures var r := Assembling(memaddr, relative, operands, values, instr);
      r.Assembled? ==> r.instr[k] == instr[k]
  {
    hide ParseOperand;
    if operands != [] {
      assert operands[0].kind != Silent ==> !InField(operands[0], k);
      assert !Touched(operands[1..], k);
      if operands[0].kind == Silent {
        AssemblingKeeps(memaddr, relative, operands[1..], values, instr, k);
      } else if values != [] {
        var param := ParseOperand(memaddr, relative, operands[0], values[0]);
        if param.Assembled? {
          ParamInField(memaddr, relative, operands[0], values[0], k);
          AssemblingKeeps(memaddr, relative, operands[1..], values[1..], Or(instr, param.instr), k);
        }
      }
    }
  }

  lemma RefusedUnfit(memaddr: u32, relative: bool, o: Operand, value: long)
    requires Placed(o) && !ParseOperand(memaddr, relative, o, value).Assembled?
    ensures !Fits(memaddr, relative, o, value)
  {
  }

  lemma WellFormedNext(memaddr: u32, relative: bool, operands: seq<Operand>, value: long, instr: Word)
    requires operands != [] && WellFormed(operands, instr) && operands[0].kind != Silent
    requires ParseOperand(memaddr, relative, operands[0], value).Assembled?
    ensures WellFormed(operands[1..], Or(instr, ParseOperand(memaddr, relative, operands[0], value).instr))
  {
    hide ParseOperand;
    var rest, next := operands[1..], Or(instr, ParseOperand(memaddr, relative, operands[0], value).instr);
    forall i, k | 0 <= i < |rest| && rest[i].kind != Silent && 0 <= k < 32 && InField(rest[i], k)
      ensures !next[k]
    {
      assert rest[i] == operands[i + 1] && Apart(operands[0], operands[i + 1]);
      ParamInField(memaddr, relative, operands[0], value, k);
    }
  }

  /** The operands behind it do not disturb the first one. */
  lemma {:induction false} FirstStays(memaddr: u32, relative: bool, operands: seq<Operand>, values: seq<long>,
                                      instr: Word)
    requires operands != [] && values != [] && WellFormed(operands, instr) && operands[0].kind != Silent
    requires forall o :: o in operands ==> Placed(o)
    requires ParseOperand(memaddr, relative, operands[0], values[0]).Assembled?
    ensures var param := ParseOperand(memaddr, relative, operands[0], values[0]).instr;
      var r := Assembling(memaddr, relative, operands[1..], values[1..], Or(instr, param));
      r.Assembled? ==> forall k :: 0 <= k < 32 && InField(operands[0], k) ==> r.instr[k] == param[k]
  {
    hide ParseOperand, Assembling;
    var param := ParseOperand(memaddr, relative, operands[0], values[0]).instr;
    var rest := operands[1..];
    forall k | 0 <= k < 32 && InField(operands[0], k)
      ensures var r := Assembling(memaddr, relative, rest, values[1..], Or(instr, param));
        r.Assembled? ==> r.instr[k] == param[k]
    {
      assert !Touched(rest, k);
      AssemblingKeeps(memaddr, relative, rest, values[1..], Or(instr, param), k);
    }
  }

  /** Disassembling what was assembled lists the values it was assembled from, exactly if all
      of them fit their operands. */
  lemma {:induction false} RoundTrip(memaddr: u32, relative: bool, operands: seq<Operand>, values: seq<long>,
                                     instr: Word)
    requires WellFormed(operands, instr) && (forall o :: o in operands ==> Placed(o))
    ensures var r := Assembling(memaddr, relative, operands, values, instr);
      (r.Assembled? && Written(operands) <= |values|
       && Listed(memaddr, relative, operands, r.instr) == values[..Written(operands)])
      <==> AllFit(memaddr, relative, operands, values)
  {
    hide ParseOperand, Fits, ShownOperand;
    if operands != [] {
      var o, rest := operands[0], operands[1..];
      if o.kind == Silent {
        RoundTrip(memaddr, relative, rest, values, instr);
      } else if values != [] {
        var param := ParseOperand(memaddr, relative, o, values[0]);
        if param.Assembled? {
          var next := Or(instr, param.instr);
          WellFormedNext(memaddr, relative, operands, values[0], instr);
          RoundTrip(memaddr, relative, rest, values[1..], next);
          var r := Assembling(memaddr, relative, rest, values[1..], next);
          if r.Assembled? {
            FirstStays(memaddr, relative, operands, values, instr);
            OperandSurvives(memaddr, relative, o, values[0], r.instr);
            assert Written(operands) <= |values| ==>
              values[..Written(operands)] == [values[0]] + values[1..][..Written(rest)];
          }
        } else {
          RefusedUnfit(memaddr, relative, o, values[0]);
        }
      }
    }
  }

  /** asmppc, for an opcode that was found and the numbers its operand texts stand for. */
  method Asmppc(memaddr: u32, opc: Opcode, values: seq<long>) returns (r: Assembly)
    requires WellFormed(opc.operands, opc.opcode) && (forall o :: o in opc.operands ==> Placed(o))
    ensures r == Assembling(memaddr, opc.relative, opc.operands, values, opc.opcode)
    ensures (r.Assembled? && Written(opc.operands) <= |values|
             && Listed(memaddr, opc.relative, opc.operands, r.instr) == values[..Written(opc.operands)])
            <==> AllFit(memaddr, opc.relative, opc.operands, values)
  {
    hide ParseOperand, AllFit, Listed, WellFormed, Or;
    RoundTrip(memaddr, opc.relative, opc.operands, values, opc.opcode);
    var instr, n, next := opc.opcode, 0, 0;
    while n < |opc.operands|
      invariant 0 <= n <= |opc.operands| && 0 <= next <= |values|
      invariant Assembling(memaddr, opc.relative, opc.operands, values, opc.opcode)
             == Assembling(memaddr, opc.relative, opc.operands[n..], values[next..], instr)
    {
      var o := opc.operands[n];
      ghost var left := opc.operands[n..];
      assert left[0] == o && left[1..] == opc.operands[n + 1..];
      if o.kind == Silent {
        n := n + 1;
        continue;
      }
      if next == |values| {
        break;
      }
      assert values[next..][0] == values[next] && values[next..][1..] == values[next + 1..];
      var param := ParseOperand(memaddr, opc.relative, o, values[next]);
      if !param.Assembled? {
        return param;
      }
      instr := Or(instr, param.instr);
      next := next + 1;
      n := n + 1;
    }
    r := if n < |opc.operands| then TooFewOperands else Assembled(instr);
  }

  /** print_operands, as the list of the values shown. */
  method PrintOperands(virtual: u32, opc: Opcode, instr: Word) returns (shown: seq<long>)
    requires forall o :: o in opc.operands ==> Placed(o)
    ensures shown == Listed(virtual, opc.relative, opc.operands, instr)
  {
    hide ShownOperand;
    shown := [];
    var n := 0;
    while n < |opc.operands|
      invariant 0 <= n <= |opc.operands|
      invariant Listed(virtual, opc.relative, opc.operands, instr)
             == shown + Listed(virtual, opc.relative, opc.operands[n..], instr)
    {
      var o := opc.operands[n];
      assert opc.operands[n..][0] == o && opc.operands[n..][1..] == opc.operands[n + 1..];
      if o.kind != Silent {
        shown := shown + [ShownOperand(virtual, opc.relative, o, instr)];
      }
      n := n + 1;
    }
  }

  /** get_operand_value: the field of the first operand with that identifier. */
  method GetOperandValue(opc: Opcode, instr: Word, field: nat) returns (r: Option<nat>)
    requires forall o :: o in opc.operands ==> Placed(o)
    ensures r.None? <==> forall i :: 0 <= i < |opc.operands| ==> opc.operands[i].field != field
    ensures r.Some? ==> exists i | 0 <= i < |opc.operands| && opc.operands[i].field == field ::
      (forall j :: 0 <= j < i ==> opc.operands[j].field != field) && r.value == Field(instr, opc.operands[i])
  {
    hide Field;
    var i := 0;
    while i < |opc.operands|
      invariant 0 <= i <= |opc.operands|
      invariant forall j :: 0 <= j < i ==> opc.operands[j].field != field
    {
      if opc.operands[i].field == field {
        return Some(Field(instr, opc.operands[i]));
      }
      i := i + 1;
    }
    r := None;
  }
}
