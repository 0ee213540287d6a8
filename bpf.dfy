/** Classic BPF programs: the text `tcpdump -dd` prints, one
    `{ code, jt, jf, k },` line per instruction, and the Linux
    `struct sock_filter` array and `struct sock_fprog` descriptor that the
    `SO_ATTACH_FILTER` socket option takes. The host is taken to be a 64-bit
    little-endian Linux machine, so native `struct` packing is little-endian,
    `unsigned int` has 4 bytes and `unsigned long` 8. */
module Bpf {
  import opened PyText

  type u8 = x: int | 0 <= x < 0x100
  type u16 = x: int | 0 <= x < 0x1_0000
  type u32 = x: int | 0 <= x < 0x1_0000_0000
  type u64 = x: int | 0 <= x < 0x1_0000_0000_0000_0000

  /** One `struct sock_filter`: opcode, jump-if-true, jump-if-false, operand. */
  datatype Instruction = Instruction(code: u16, jt: u8, jf: u8, k: u32)

  datatype FilterError =
    | InvalidLiteral   // `int()` raised ValueError on one of the four groups
    | FieldOutOfRange  // `struct.pack('HBBI', ...)` raised struct.error
    | ProgramTooLong   // `struct.pack('HL', ...)`: more than 65535 instructions

  // ---------------------------------------------------------------------
  // Little-endian integers

  function Pow256(n: nat): (p: nat)
    ensures p >= 1
  {
    if n == 0 then 1 else 256 * Pow256(n - 1)
  }

  function LittleEndian(v: nat, width: nat): (bs: seq<byte>)
    requires v < Pow256(width)
    ensures |bs| == width
  {
    if width == 0 then []
    else [(v % 256) as byte] + LittleEndian(v / 256, width - 1)
  }

  function LittleEndianValue(bs: seq<byte>): nat {
    if bs == [] then 0 else bs[0] as nat + 256 * LittleEndianValue(bs[1..])
  }

  lemma {:induction false} LittleEndianValueBound(bs: seq<byte>)
    ensures LittleEndianValue(bs) < Pow256(|bs|)
  {
    if bs != [] {
      LittleEndianValueBound(bs[1..]);
    }
  }

  /** Reading back an encoded integer gives the integer. */
  lemma {:induction false} LittleEndianRoundTrip(v: nat, width: nat)
    requires v < Pow256(width)
    ensures LittleEndianValue(LittleEndian(v, width)) == v
  {
    if width > 0 {
      LittleEndianRoundTrip(v / 256, width - 1);
      assert LittleEndian(v, width)[1..] == LittleEndian(v / 256, width - 1);
    }
  }

  /** Encoding the value of some bytes gives back those bytes. */
  lemma {:induction false} LittleEndianOfValue(bs: seq<byte>)
    ensures LittleEndianValue(bs) < Pow256(|bs|) && LittleEndian(LittleEndianValue(bs), |bs|) == bs
  {
    LittleEndianValueBound(bs);
    if bs != [] {
      LittleEndianValueBound(bs[1..]);
      LittleEndianOfValue(bs[1..]);
      var v := LittleEndianValue(bs);
      assert v % 256 == bs[0] as nat && v / 256 == LittleEndianValue(bs[1..]);
    }
  }

  lemma Pow256Widths()
    ensures Pow256(2) == 0x1_0000 && Pow256(4) == 0x1_0000_0000
    ensures Pow256(8) == 0x1_0000_0000_0000_0000
  {
  }

  // ---------------------------------------------------------------------
  // Instructions as bytes

  /** `struct.pack('HBBI', code, jt, jf, k)`: 2 + 1 + 1 + 4 bytes, and the
      4-byte field is already aligned, so there is no padding. */
  function Encode(i: Instruction): (bs: seq<byte>)
    ensures |bs| == 8
  {
    Pow256Widths();
    LittleEndian(i.code, 2) + [i.jt as byte, i.jf as byte] + LittleEndian(i.k, 4)
  }

  /** The kernel's reading of one 8-byte `struct sock_filter`. */
  function Decode(bs: seq<byte>): Instruction
    requires |bs| == 8
  {
    Pow256Widths();
    LittleEndianValueBound(bs[..2]);
    LittleEndianValueBound(bs[4..]);
    Instruction(LittleEndianValue(bs[..2]), bs[2] as int, bs[3] as int, LittleEndianValue(bs[4..]))
  }

  /** The 8-byte record holds exactly the four fields, in their order. */
  lemma EncodeDecode(i: Instruction)
    ensures Decode(Encode(i)) == i
  {
    Pow256Widths();
    var bs := Encode(i);
    assert bs[..2] == LittleEndian(i.code, 2);
    assert bs[4..] == LittleEndian(i.k, 4);
    LittleEndianRoundTrip(i.code, 2);
    LittleEndianRoundTrip(i.k, 4);
  }

  /** Every 8-byte record is the encoding of one instruction. */
  lemma DecodeEncode(bs: seq<byte>)
    requires |bs| == 8
    ensures Encode(Decode(bs)) == bs
  {
    Pow256Widths();
    LittleEndianOfValue(bs[..2]);
    LittleEndianOfValue(bs[4..]);
    assert bs == bs[..2] + [bs[2], bs[3]] + bs[4..];
  }

  /** `b''.join` of the packed instructions, in program order. */
  function Serialise(prog: seq<Instruction>): (bs: seq<byte>)
    ensures |bs| == 8 * |prog|
  {
    if prog == [] then [] else Encode(prog[0]) + Serialise(prog[1..])
  }

  /** The kernel's reading of an instruction array. */
  function Deserialise(bs: seq<byte>): seq<Instruction>
    requires |bs| % 8 == 0
  {
    if bs == [] then [] else [Decode(bs[..8])] + Deserialise(bs[8..])
  }

  lemma {:induction false} SerialiseAppend(a: seq<Instruction>, b: seq<Instruction>)
    ensures Serialise(a + b) == Serialise(a) + Serialise(b)
  {
    if a != [] {
      assert (a + b)[1..] == a[1..] + b;
      SerialiseAppend(a[1..], b);
    } else {
      assert a + b == b;
    }
  }

  lemma SerialiseOne(i: Instruction)
    ensures Serialise([i]) == Encode(i)
  {
    assert [i][1..] == [];
  }

  /** Instruction `k` occupies bytes `8k .. 8k+8` of the buffer. */
  lemma {:induction false} SerialiseAt(prog: seq<Instruction>, k: nat)
    requires k < |prog|
    ensures Serialise(prog)[8 * k..8 * k + 8] == Encode(prog[k])
  {
    if k > 0 {
      SerialiseAt(prog[1..], k - 1);
      assert Serialise(prog)[8..] == Serialise(prog[1..]);
    }
  }

  /** The kernel reads back exactly the program that was packed. */
  lemma {:induction false} SerialiseRoundTrip(prog: seq<Instruction>)
    ensures Deserialise(Serialise(prog)) == prog
  {
    if prog != [] {
      var bs := Serialise(prog);
      assert bs[..8] == Encode(prog[0]);
      assert bs[8..] == Serialise(prog[1..]);
      EncodeDecode(prog[0]);
      SerialiseRoundTrip(prog[1..]);
    }
  }

  /** `struct.pack('HL', count, address)`: the 2-byte count, six zero bytes
      that align the 8-byte address, then the address. */
  function PackDescriptor(count: u16, address: u64): (bs: seq<byte>)
    ensures |bs| == 16
  {
    Pow256Widths();
    LittleEndian(count, 2) + [0, 0, 0, 0, 0, 0] + LittleEndian(address, 8)
  }

  /** The descriptor gives back the instruction count and the address. */
  lemma DescriptorFields(count: u16, address: u64)
    ensures LittleEndianValue(PackDescriptor(count, address)[..2]) == count
    ensures PackDescriptor(count, address)[2..8] == [0, 0, 0, 0, 0, 0]
    ensures LittleEndianValue(PackDescriptor(count, address)[8..]) == address
  {
    Pow256Widths();
    var bs := PackDescriptor(count, address);
    assert bs[..2] == LittleEndian(count, 2);
    assert bs[8..] == LittleEndian(address, 8);
    LittleEndianRoundTrip(count, 2);
    LittleEndianRoundTrip(address, 8);
  }

  // ---------------------------------------------------------------------
  // The line pattern `{\s+([^,]+),\s+([^,]+),\s+([^,]+),\s+(\S+)`, applied
  // with `re.match`, that is, anchored at the start of the line only.

  /** The four captured groups. */
  datatype Fields = Fields(code: string, jt: string, jf: string, k: string)

  /** A split of a line into the pieces the pattern names: the whitespace
      before each group, the groups, and whatever follows the last group. */
  datatype Parts = Parts(
    sp1: string, g1: string, sp2: string, g2: string,
    sp3: string, g3: string, sp4: string, g4: string, after: string)

  /** One `\s+([^,]+),` piece followed by the rest of the line. */
  function Field(sp: string, g: string, rest: string): string {
    sp + g + "," + rest
  }

  function Assemble(p: Parts): string {
    "{" + Field(p.sp1, p.g1, Field(p.sp2, p.g2, Field(p.sp3, p.g3, p.sp4 + p.g4 + p.after)))
  }

  predicate Spaces(s: string) {
    |s| >= 1 && AllSpace(s)
  }

  predicate CommaFree(g: string) {
    |g| >= 1 && ',' !in g
  }

  /** The pieces fit the pattern, whichever way `\s+` and the group share
      the whitespace between them. */
  predicate FitsPattern(p: Parts) {
    && Spaces(p.sp1) && CommaFree(p.g1)
    && Spaces(p.sp2) && CommaFree(p.g2)
    && Spaces(p.sp3) && CommaFree(p.g3)
    && Spaces(p.sp4) && |p.g4| >= 1 && NoSpace(p.g4)
  }

  /** The split the regular-expression engine settles on: each `\s+` takes
      all the whitespace it can, and `(\S+)` runs to the next whitespace. */
  predicate Greedy(p: Parts)
    requires FitsPattern(p)
  {
    && !IsSpace(p.g1[0]) && !IsSpace(p.g2[0]) && !IsSpace(p.g3[0])
    && (p.after == [] || IsSpace(p.after[0]))
  }

  lemma CommaIsNotSpace()
    ensures !IsSpace(',')
  {
  }

  /** `\s+([^,]+),` at the start of `s`: the whitespace, the group and the
      text after the comma. The group runs to the first comma; `\s+` gives
      back one character when nothing but whitespace precedes that comma. */
  function MatchField(s: string): (r: Option<(string, string, string)>)
    ensures r.Some? ==> s == Field(r.value.0, r.value.1, r.value.2)
    ensures r.Some? ==> Spaces(r.value.0) && CommaFree(r.value.1)
  {
    match IndexOf(s, ',')
    case None => None
    case Some(c) =>
      var seg := s[..c];
      if |seg| < 2 || !IsSpace(seg[0]) then None
      else
        var w := SpaceRun(seg);
        var n := if w < |seg| then w else |seg| - 1;
        assert AllSpace(seg[..n]) by {
          forall i | 0 <= i < n ensures IsSpace(seg[..n][i]) {
            assert seg[..n][i] == seg[..w][i];
          }
        }
        assert s == seg[..n] + seg[n..] + "," + s[c + 1..];
        Some((seg[..n], seg[n..], s[c + 1..]))
  }

  /** `\s+(\S+)` at the start of `s`. */
  function MatchLast(s: string): (r: Option<(string, string, string)>)
    ensures r.Some? ==> s == r.value.0 + r.value.1 + r.value.2
    ensures r.Some? ==> Spaces(r.value.0) && |r.value.1| >= 1 && NoSpace(r.value.1)
    ensures r.Some? ==> r.value.2 == [] || IsSpace(r.value.2[0])
  {
    var w := SpaceRun(s);
    if w == 0 || w == |s| then None
    else
      var rest := s[w..];
      var n := NonSpaceRun(rest);
      assert s == s[..w] + rest[..n] + rest[n..];
      Some((s[..w], rest[..n], rest[n..]))
  }

  /** `re.match(JIT_RE, line)`, with all the pieces of the match. */
  function MatchParts(line: string): Option<Parts> {
    if |line| == 0 || line[0] != '{' then None
    else match MatchField(line[1..])
      case None => None
      case Some(f1) => match MatchField(f1.2)
        case None => None
        case Some(f2) => match MatchField(f2.2)
          case None => None
          case Some(f3) => match MatchLast(f3.2)
            case None => None
            case Some(f4) =>
              Some(Parts(f1.0, f1.1, f2.0, f2.1, f3.0, f3.1, f4.0, f4.1, f4.2))
  }

  /** The groups `match.groups()` returns. */
  function MatchLine(line: string): Option<Fields> {
    match MatchParts(line)
    case None => None
    case Some(p) => Some(Fields(p.g1, p.g2, p.g3, p.g4))
  }

  /** A match is a split of the whole line that fits the pattern. */
  lemma MatchSound(line: string)
    requires MatchParts(line).Some?
    ensures line == Assemble(MatchParts(line).value)
    ensures FitsPattern(MatchParts(line).value)
  {
    MatchFits(line);
    MatchAssembles(line);
  }

  lemma MatchFits(line: string)
    requires MatchParts(line).Some?
    ensures FitsPattern(MatchParts(line).value)
  {
    var f1 := MatchField(line[1..]).value;
    var f2 := MatchField(f1.2).value;
    var f3 := MatchField(f2.2).value;
    var f4 := MatchLast(f3.2).value;
    assert MatchParts(line) == Some(Parts(f1.0, f1.1, f2.0, f2.1, f3.0, f3.1, f4.0, f4.1, f4.2));
  }

  lemma MatchAssembles(line: string)
    requires MatchParts(line).Some?
    ensures line == Assemble(MatchParts(line).value)
  {
    var f1 := MatchField(line[1..]).value;
    var f2 := MatchField(f1.2).value;
    var f3 := MatchField(f2.2).value;
    var f4 := MatchLast(f3.2).value;
    var p := Parts(f1.0, f1.1, f2.0, f2.1, f3.0, f3.1, f4.0, f4.1, f4.2);
    assert MatchParts(line) == Some(p);
    AssembleFrom(line, p, f1.2, f2.2, f3.2);
  }

  lemma AssembleFrom(line: string, p: Parts, r1: string, r2: string, r3: string)
    requires |line| >= 1 && line[0] == '{'
    requires line[1..] == Field(p.sp1, p.g1, r1)
    requires r1 == Field(p.sp2, p.g2, r2)
    requires r2 == Field(p.sp3, p.g3, r3)
    requires r3 == p.sp4 + p.g4 + p.after
    ensures line == Assemble(p)
  {
    assert line == "{" + line[1..];
  }

  lemma MatchFieldComplete(sp: string, g: string, after: string)
    requires Spaces(sp) && CommaFree(g)
    ensures MatchField(Field(sp, g, after)).Some?
    ensures MatchField(Field(sp, g, after)).value.2 == after
    ensures !IsSpace(g[0]) ==>
      MatchField(Field(sp, g, after)).value.0 == sp && MatchField(Field(sp, g, after)).value.1 == g
  {
    CommaIsNotSpace();
    var s := Field(sp, g, after);
    var seg := sp + g;
    assert ',' !in seg by {
      forall i | 0 <= i < |seg| ensures seg[i] != ',' {
        if i < |sp| {
          assert IsSpace(sp[i]);
        } else {
          assert seg[i] == g[i - |sp|];
        }
      }
    }
    assert s == seg + [','] + after;
    IndexOfAfter(seg, ',', after);
    var c := |seg|;
    assert s[..c] == seg;
    assert s[c + 1..] == after;
    assert seg[0] == sp[0];
    if !IsSpace(g[0]) {
      assert seg == sp + g;
      SpaceRunAfter(sp, g);
      assert seg[..|sp|] == sp && seg[|sp|..] == g;
    }
  }

  lemma MatchLastComplete(sp: string, g: string, after: string)
    requires Spaces(sp) && |g| >= 1 && NoSpace(g)
    ensures MatchLast(sp + g + after).Some?
    ensures (after == [] || IsSpace(after[0])) ==> MatchLast(sp + g + after).value == (sp, g, after)
  {
    var s := sp + g + after;
    var tail := g + after;
    assert s == sp + tail;
    assert tail[0] == g[0];
    SpaceRunAfter(sp, tail);
    assert s[..|sp|] == sp;
    assert s[|sp|..] == tail;
    if after == [] || IsSpace(after[0]) {
      NonSpaceRunAfter(g, after);
      assert tail[..|g|] == g && tail[|g|..] == after;
    }
  }

  /** Every line of the pattern's shape is matched, and a split in the
      engine's own (greedy) form is recovered exactly. */
  lemma MatchComplete(p: Parts)
    requires FitsPattern(p)
    ensures MatchParts(Assemble(p)).Some?
    ensures Greedy(p) ==> MatchParts(Assemble(p)) == Some(p)
  {
    var r3 := p.sp4 + p.g4 + p.after;
    var r2 := Field(p.sp3, p.g3, r3);
    var r1 := Field(p.sp2, p.g2, r2);
    var line := Assemble(p);
    assert line[0] == '{' && line[1..] == Field(p.sp1, p.g1, r1);
    MatchFieldComplete(p.sp1, p.g1, r1);
    var f1 := MatchField(line[1..]).value;
    assert f1.2 == r1;
    MatchFieldComplete(p.sp2, p.g2, r2);
    var f2 := MatchField(r1).value;
    assert f2.2 == r2;
    MatchFieldComplete(p.sp3, p.g3, r3);
    var f3 := MatchField(r2).value;
    assert f3.2 == r3;
    MatchLastComplete(p.sp4, p.g4, p.after);
    var f4 := MatchLast(r3).value;
    assert MatchParts(line) == Some(Parts(f1.0, f1.1, f2.0, f2.1, f3.0, f3.1, f4.0, f4.1, f4.2));
  }

  // ---------------------------------------------------------------------
  // From matched lines to instructions

  /** `int(code, 16)`, `int(jt)`, `int(jf)`, `int(k, 16)`, then the range
      checks `struct.pack('HBBI', ...)` makes. */
  function ParseFields(f: Fields): (r: Result<Instruction, FilterError>)
    ensures r == Err(InvalidLiteral) <==>
      ParseInt(f.code, 16).None? || ParseInt(f.jt, 10).None? || ParseInt(f.jf, 10).None? || ParseInt(f.k, 16).None?
    ensures r == Err(FieldOutOfRange) <==>
      && ParseInt(f.code, 16).Some? && ParseInt(f.jt, 10).Some? && ParseInt(f.jf, 10).Some? && ParseInt(f.k, 16).Some?
      && !(&& 0 <= ParseInt(f.code, 16).value < 0x1_0000 && 0 <= ParseInt(f.jt, 10).value < 0x100
           && 0 <= ParseInt(f.jf, 10).value < 0x100 && 0 <= ParseInt(f.k, 16).value < 0x1_0000_0000)
    ensures r.Err? ==> r.error != ProgramTooLong
    ensures r.Ok? ==>
      && ParseInt(f.code, 16) == Some(r.value.code as int) && ParseInt(f.k, 16) == Some(r.value.k as int)
      && ParseInt(f.jt, 10) == Some(r.value.jt as int) && ParseInt(f.jf, 10) == Some(r.value.jf as int)
  {
    var code := ParseInt(f.code, 16);
    var jt := ParseInt(f.jt, 10);
    var jf := ParseInt(f.jf, 10);
    var k := ParseInt(f.k, 16);
    if code.None? || jt.None? || jf.None? || k.None? then Err(InvalidLiteral)
    else if !(0 <= code.value < 0x1_0000 && 0 <= jt.value < 0x100 && 0 <= jf.value < 0x100
              && 0 <= k.value < 0x1_0000_0000)
    then Err(FieldOutOfRange)
    else Ok(Instruction(code.value, jt.value, jf.value, k.value))
  }

  /** The groups of a line the loader takes: a non-empty line of the
      pattern's shape. */
  function Pick(line: string): Option<Fields> {
    if line == "" then None else MatchLine(line)
  }

  /** What `pick` finds in each element of `xs`, in order. */
  function Keep<A, T>(xs: seq<A>, pick: A -> Option<T>): seq<T> {
    if xs == [] then []
    else (if pick(xs[0]).Some? then [pick(xs[0]).value] else []) + Keep(xs[1..], pick)
  }

  /** `conv` applied to each element of `xs`, or the error of the first
      element it fails on. */
  function ConvertAll<A, B, E>(xs: seq<A>, conv: A -> Result<B, E>): Result<seq<B>, E> {
    if xs == [] then Ok([])
    else match conv(xs[0])
      case Err(e) => Err(e)
      case Ok(y) => match ConvertAll(xs[1..], conv)
        case Err(e) => Err(e)
        case Ok(ys) => Ok([y] + ys)
  }

  /** The instructions of a `tcpdump -dd` text: the lines taken, in order,
      each converted. */
  function Instructions(text: string): Result<seq<Instruction>, FilterError> {
    ConvertAll(Keep(Split(text, '\n'), Pick), ParseFields)
  }

  /** What `Filter.load` accepts: the instructions, provided the count fits
      the descriptor's 16-bit field. */
  function Compile(text: string): (r: Result<seq<Instruction>, FilterError>)
    ensures r.Ok? ==> Instructions(text) == r && |r.value| < 0x1_0000
    ensures Instructions(text).Ok? && |Instructions(text).value| < 0x1_0000 ==> r == Instructions(text)
    ensures Instructions(text).Err? ==> r == Instructions(text)
    ensures Instructions(text).Ok? && |Instructions(text).value| >= 0x1_0000 ==> r == Err(ProgramTooLong)
  {
    match Instructions(text)
    case Err(e) => Err(e)
    case Ok(prog) => if |prog| < 0x1_0000 then Ok(prog) else Err(ProgramTooLong)
  }

  /** Selection distributes over concatenation: it keeps lines in order. */
  lemma {:induction false} KeepAppend<A, T>(a: seq<A>, b: seq<A>, pick: A -> Option<T>)
    ensures Keep(a + b, pick) == Keep(a, pick) + Keep(b, pick)
  {
    if a == [] {
      assert a + b == b;
    } else {
      var head := if pick(a[0]).Some? then [pick(a[0]).value] else [];
      assert (a + b)[0] == a[0];
      assert (a + b)[1..] == a[1..] + b;
      assert Keep(a + b, pick) == head + Keep(a[1..] + b, pick);
      KeepAppend(a[1..], b, pick);
      assert Keep(a, pick) == head + Keep(a[1..], pick);
      AppendAssoc(head, Keep(a[1..], pick), Keep(b, pick));
    }
  }

  /** Exactly what `pick` finds in some element is kept. */
  lemma {:induction false} KeepMembers<A, T>(xs: seq<A>, pick: A -> Option<T>)
    ensures forall v :: v in Keep(xs, pick) <==> exists i :: 0 <= i < |xs| && pick(xs[i]) == Some(v)
  {
    if xs != [] {
      KeepMembers(xs[1..], pick);
      forall v ensures v in Keep(xs, pick) <==> exists i :: 0 <= i < |xs| && pick(xs[i]) == Some(v) {
        if v in Keep(xs[1..], pick) {
          var i :| 0 <= i < |xs[1..]| && pick(xs[1..][i]) == Some(v);
          assert xs[i + 1] == xs[1..][i];
        }
        if exists i :: 0 <= i < |xs| && pick(xs[i]) == Some(v) {
          var i :| 0 <= i < |xs| && pick(xs[i]) == Some(v);
          if i > 0 {
            assert xs[1..][i - 1] == xs[i];
          }
        }
      }
    }
  }

  /** A conversion succeeds exactly when every element converts; the result
      then has one value per element, in order. */
  lemma {:induction false} ConvertAllOk<A, B, E>(xs: seq<A>, conv: A -> Result<B, E>)
    ensures ConvertAll(xs, conv).Ok? <==> forall k :: 0 <= k < |xs| ==> conv(xs[k]).Ok?
    ensures ConvertAll(xs, conv).Ok? ==>
      |ConvertAll(xs, conv).value| == |xs|
      && forall k :: 0 <= k < |xs| ==> conv(xs[k]) == Ok(ConvertAll(xs, conv).value[k])
  {
    if xs != [] {
      ConvertAllOk(xs[1..], conv);
      if ConvertAll(xs, conv).Ok? {
        forall k | 0 <= k < |xs| ensures conv(xs[k]) == Ok(ConvertAll(xs, conv).value[k]) {
          if k > 0 {
            assert xs[k] == xs[1..][k - 1];
          }
        }
      } else if conv(xs[0]).Ok? {
        var k :| 0 <= k < |xs[1..]| && !conv(xs[1..][k]).Ok?;
        assert xs[k + 1] == xs[1..][k];
      }
    }
  }

  /** The error reported is that of the first element that does not convert. */
  lemma {:induction false} ConvertAllFirstError<A, B, E>(xs: seq<A>, conv: A -> Result<B, E>)
    requires ConvertAll(xs, conv).Err?
    ensures exists k :: (0 <= k < |xs| && conv(xs[k]) == Err(ConvertAll(xs, conv).error)
      && forall j :: 0 <= j < k ==> conv(xs[j]).Ok?)
  {
    if conv(xs[0]).Ok? {
      ConvertAllFirstError(xs[1..], conv);
      var k :| 0 <= k < |xs[1..]| && conv(xs[1..][k]) == Err(ConvertAll(xs[1..], conv).error)
        && forall j :: 0 <= j < k ==> conv(xs[1..][j]).Ok?;
      assert xs[k + 1] == xs[1..][k];
      forall j | 0 <= j < k + 1 ensures conv(xs[j]).Ok? {
        if j > 0 {
          assert xs[j] == xs[1..][j - 1];
        }
      }
    } else {
      assert conv(xs[0]) == Err(ConvertAll(xs, conv).error);
    }
  }

  /** Converting a concatenation converts the second part after the first. */
  lemma {:induction false} ConvertAllAppend<A, B, E>(a: seq<A>, b: seq<A>, conv: A -> Result<B, E>)
    requires ConvertAll(a, conv).Ok?
    ensures ConvertAll(b, conv).Ok? ==>
      ConvertAll(a + b, conv) == Ok(ConvertAll(a, conv).value + ConvertAll(b, conv).value)
    ensures ConvertAll(b, conv).Err? ==> ConvertAll(a + b, conv) == ConvertAll(b, conv)
  {
    if a == [] {
      assert a + b == b;
      if ConvertAll(b, conv).Ok? {
        assert ConvertAll(a, conv).value + ConvertAll(b, conv).value == ConvertAll(b, conv).value;
      }
    } else {
      assert (a + b)[0] == a[0];
      assert (a + b)[1..] == a[1..] + b;
      ConvertAllAppend(a[1..], b, conv);
      if ConvertAll(b, conv).Ok? {
        var y := conv(a[0]).value;
        var ya := ConvertAll(a[1..], conv).value;
        var yb := ConvertAll(b, conv).value;
        assert [y] + (ya + yb) == ([y] + ya) + yb;
      }
    }
  }

  // ---------------------------------------------------------------------
  // The lines `tcpdump -dd` prints

  /** `printf("{ 0x%x, %d, %d, 0x%08x },", code, jt, jf, k)`. */
  function DumpLine(i: Instruction): string {
    "{ 0x" + PadDigits(i.code, 16, 1) + ", " + IntToString(i.jt) + ", " + IntToString(i.jf)
      + ", 0x" + PadDigits(i.k, 16, 8) + " },"
  }

  function DumpLines(prog: seq<Instruction>): (lines: seq<string>)
    ensures |lines| == |prog|
  {
    if prog == [] then [] else [DumpLine(prog[0])] + DumpLines(prog[1..])
  }

  /** The whole `tcpdump -dd` output: every line ends with a newline. */
  function Dump(prog: seq<Instruction>): string {
    Join(DumpLines(prog) + [""], '\n')
  }

  /** The same output without the final newline, as it is usually pasted
      into a program. */
  function DumpText(prog: seq<Instruction>): string
    requires |prog| >= 1
  {
    Join(DumpLines(prog), '\n')
  }

  /** The split of a printed line into the pattern's pieces. */
  function DumpParts(i: Instruction): Parts {
    Parts(" ", "0x" + PadDigits(i.code, 16, 1), " ", IntToString(i.jt), " ",
      IntToString(i.jf), " ", "0x" + PadDigits(i.k, 16, 8), " },")
  }

  lemma HexGroup(n: nat, width: nat)
    ensures CommaFree("0x" + PadDigits(n, 16, width)) && NoSpace("0x" + PadDigits(n, 16, width))
    ensures !IsSpace(("0x" + PadDigits(n, 16, width))[0]) && '\n' !in "0x" + PadDigits(n, 16, width)
  {
    var g := "0x" + PadDigits(n, 16, width);
    forall j | 0 <= j < |g| ensures g[j] != ',' && g[j] != '\n' && !IsSpace(g[j]) {
      if j >= 2 {
        assert g[j] == PadDigits(n, 16, width)[j - 2];
        assert DigitValue(g[j], 16).Some?;
      }
    }
  }

  lemma DecimalGroup(n: int)
    ensures CommaFree(IntToString(n)) && NoSpace(IntToString(n))
    ensures !IsSpace(IntToString(n)[0]) && '\n' !in IntToString(n)
  {
    var g := IntToString(n);
    forall j | 0 <= j < |g| ensures g[j] != ',' && g[j] != '\n' && !IsSpace(g[j]) {
      assert g[j] == '-' || '0' <= g[j] <= '9';
    }
  }

  /** The printf layout is the pattern's layout with one space before each
      group. */
  lemma DumpLayout(c: string, jt: string, jf: string, k: string)
    ensures "{ 0x" + c + ", " + jt + ", " + jf + ", 0x" + k + " },"
      == Assemble(Parts(" ", "0x" + c, " ", jt, " ", jf, " ", "0x" + k, " },"))
  {
    calc {
      "{ 0x" + c + ", " + jt + ", " + jf + ", 0x" + k + " },";
      "{" + (" " + ("0x" + c) + "," + (" " + jt + "," + (" " + jf + "," + (" " + ("0x" + k) + " },"))));
    }
  }

  lemma DumpLineParts(i: Instruction)
    ensures FitsPattern(DumpParts(i)) && Greedy(DumpParts(i))
    ensures DumpLine(i) == Assemble(DumpParts(i))
    ensures '\n' !in DumpLine(i)
  {
    HexGroup(i.code, 1);
    HexGroup(i.k, 8);
    DecimalGroup(i.jt);
    DecimalGroup(i.jf);
    assert IsSpace(' ');
    DumpLayout(PadDigits(i.code, 16, 1), IntToString(i.jt), IntToString(i.jf), PadDigits(i.k, 16, 8));
  }

  /** The loader takes a line of the pattern's shape, with the groups the
      engine's split gives. */
  lemma GreedyPick(p: Parts)
    requires FitsPattern(p) && Greedy(p)
    ensures Pick(Assemble(p)) == Some(Fields(p.g1, p.g2, p.g3, p.g4))
  {
    MatchComplete(p);
    var line := Assemble(p);
    assert line != "" by {
      assert line[0] == '{';
    }
    assert MatchLine(line) == Some(Fields(p.g1, p.g2, p.g3, p.g4));
  }

  /** The four printed groups convert back to the instruction. */
  lemma DumpFieldsParse(i: Instruction)
    ensures ParseFields(Fields(DumpParts(i).g1, DumpParts(i).g2, DumpParts(i).g3, DumpParts(i).g4)) == Ok(i)
  {
    var p := DumpParts(i);
    HexRoundTrip(i.code, 1);
    HexRoundTrip(i.k, 8);
    IntToStringRoundTrip(i.jt);
    IntToStringRoundTrip(i.jf);
    FieldsDenote(Fields(p.g1, p.g2, p.g3, p.g4), i);
  }

  /** Four literals that read back as the fields of `i` parse to `i`. */
  lemma FieldsDenote(f: Fields, i: Instruction)
    requires ParseInt(f.code, 16) == Some(i.code as int) && ParseInt(f.k, 16) == Some(i.k as int)
    requires ParseInt(f.jt, 10) == Some(i.jt as int) && ParseInt(f.jf, 10) == Some(i.jf as int)
    ensures ParseFields(f) == Ok(i)
  {
  }

  /** The loader reads a `tcpdump -dd` line back into the instruction it
      was printed from. */
  lemma DumpLineLoads(i: Instruction)
    ensures Pick(DumpLine(i)).Some? && ParseFields(Pick(DumpLine(i)).value) == Ok(i)
  {
    DumpLineParts(i);
    GreedyPick(DumpParts(i));
    DumpFieldsParse(i);
  }

  /** When `pick` finds something in every element and each finding
      converts, the conversion of the findings is the list of results. */
  lemma {:induction false} KeepConvertAll<A, F, B, E>(
    xs: seq<A>, pick: A -> Option<F>, conv: F -> Result<B, E>, ys: seq<B>)
    requires |xs| == |ys|
    requires forall k :: 0 <= k < |xs| ==> pick(xs[k]).Some? && conv(pick(xs[k]).value) == Ok(ys[k])
    ensures ConvertAll(Keep(xs, pick), conv) == Ok(ys)
  {
    if xs != [] {
      assert pick(xs[0]).Some?;
      forall k | 0 <= k < |xs[1..]|
        ensures pick(xs[1..][k]).Some? && conv(pick(xs[1..][k]).value) == Ok(ys[1..][k])
      {
        assert xs[1..][k] == xs[k + 1];
      }
      KeepConvertAll(xs[1..], pick, conv, ys[1..]);
      assert ys == [ys[0]] + ys[1..];
    }
  }

  /** Loading what `tcpdump -dd` prints for a program gives that program. */
  lemma DumpRoundTrip(prog: seq<Instruction>)
    ensures Instructions(Dump(prog)) == Ok(prog)
    ensures |prog| < 0x1_0000 ==> Compile(Dump(prog)) == Ok(prog)
  {
    var lines := DumpLines(prog) + [""];
    forall k | 0 <= k < |lines| ensures '\n' !in lines[k] {
      if k < |prog| {
        DumpLinesAt(prog, k);
        DumpLineParts(prog[k]);
      }
    }
    JoinSplit(lines, '\n');
    KeepAppend(DumpLines(prog), [""], Pick);
    assert Keep([""], Pick) == [];
    assert Keep(DumpLines(prog), Pick) + [] == Keep(DumpLines(prog), Pick);
    forall k | 0 <= k < |prog|
      ensures Pick(DumpLines(prog)[k]).Some? && ParseFields(Pick(DumpLines(prog)[k]).value) == Ok(prog[k])
    {
      DumpLinesAt(prog, k);
      DumpLineLoads(prog[k]);
    }
    KeepConvertAll(DumpLines(prog), Pick, ParseFields, prog);
  }

  /** The same when the final newline is missing. */
  lemma DumpTextRoundTrip(prog: seq<Instruction>)
    requires |prog| >= 1
    ensures Instructions(DumpText(prog)) == Ok(prog)
    ensures |prog| < 0x1_0000 ==> Compile(DumpText(prog)) == Ok(prog)
  {
    var lines := DumpLines(prog);
    forall k | 0 <= k < |lines| ensures '\n' !in lines[k] {
      DumpLinesAt(prog, k);
      DumpLineParts(prog[k]);
    }
    JoinSplit(lines, '\n');
    forall k | 0 <= k < |prog|
      ensures Pick(DumpLines(prog)[k]).Some? && ParseFields(Pick(DumpLines(prog)[k]).value) == Ok(prog[k])
    {
      DumpLinesAt(prog, k);
      DumpLineLoads(prog[k]);
    }
    KeepConvertAll(DumpLines(prog), Pick, ParseFields, prog);
  }

  lemma {:induction false} DumpLinesAt(prog: seq<Instruction>, k: nat)
    requires k < |prog|
    ensures DumpLines(prog)[k] == DumpLine(prog[k])
  {
    if k > 0 {
      DumpLinesAt(prog[1..], k - 1);
    }
  }

  // ---------------------------------------------------------------------
  // Worked examples

  /** The byte layout of one packed instruction. */
  lemma EncodeExample()
    ensures Encode(Instruction(0x15, 2, 0, 0x84)) == [0x15, 0x00, 0x02, 0x00, 0x84, 0x00, 0x00, 0x00]
  {
  }

  /** A line that does not start with `{` is skipped, and the taken lines
      around it keep their order. */
  lemma SkipsOtherLines(l1: string, other: string, l2: string, i1: Instruction, i2: Instruction)
    requires '\n' !in l1 && '\n' !in other && '\n' !in l2
    requires other == "" || other[0] != '{'
    requires Pick(l1).Some? && ParseFields(Pick(l1).value) == Ok(i1)
    requires Pick(l2).Some? && ParseFields(Pick(l2).value) == Ok(i2)
    ensures Instructions(l1 + "\n" + other + "\n" + l2) == Ok([i1, i2])
  {
    SplitThree(l1, other, l2, '\n');
    assert Pick(other) == None;
    KeepConvertSkip(l1, other, l2, Pick, ParseFields, i1, i2);
  }

  lemma KeepConvertSkip<A, F, B, E>(
    a: A, b: A, c: A, pick: A -> Option<F>, conv: F -> Result<B, E>, y1: B, y2: B)
    requires pick(a).Some? && conv(pick(a).value) == Ok(y1)
    requires pick(b).None?
    requires pick(c).Some? && conv(pick(c).value) == Ok(y2)
    ensures ConvertAll(Keep([a, b, c], pick), conv) == Ok([y1, y2])
  {
    assert [a, b, c][1..] == [b, c] && [b, c][1..] == [c] && [c][1..] == [];
    var f1, f2 := pick(a).value, pick(c).value;
    assert Keep([c], pick) == [f2];
    assert Keep([b, c], pick) == [f2];
    assert Keep([a, b, c], pick) == [f1, f2];
    assert [f1, f2][1..] == [f2] && [f2][1..] == [];
    assert ConvertAll([f2][1..], conv) == Ok([]);
    assert [y2] + [] == [y2];
    assert ConvertAll([f2], conv) == Ok([y2]);
    assert ConvertAll([f1, f2][1..], conv) == Ok([y2]);
    assert [y1] + [y2] == [y1, y2];
  }

  /** The same for two lines printed by `tcpdump -dd`. */
  lemma SkipsOtherDumpLines(i1: Instruction, other: string, i2: Instruction)
    requires '\n' !in other
    requires other == "" || other[0] != '{'
    ensures Instructions(DumpLine(i1) + "\n" + other + "\n" + DumpLine(i2)) == Ok([i1, i2])
  {
    DumpLineParts(i1);
    DumpLineParts(i2);
    DumpLineLoads(i1);
    DumpLineLoads(i2);
    SkipsOtherLines(DumpLine(i1), other, DumpLine(i2), i1, i2);
  }
}
