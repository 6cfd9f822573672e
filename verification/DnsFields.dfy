// The field macros of ares_dns.h over the fixed parts of a DNS message: sections
// 4.1.1 (header), 4.1.2 (question) and 4.1.3 (resource record) of RFC 1035.
module DnsFields {

  /** A field of two or four whole bytes, in network byte order. */
  datatype Slot = Slot(off: nat, wide: bool)
  {
    function End(): nat { off + if wide then 4 else 2 }
  }

  const HEADER_QID := Slot(0, false)
  const HEADER_QDCOUNT := Slot(4, false)
  const HEADER_ANCOUNT := Slot(6, false)
  const HEADER_NSCOUNT := Slot(8, false)
  const HEADER_ARCOUNT := Slot(10, false)
  const QUESTION_TYPE := Slot(0, false)
  const QUESTION_CLASS := Slot(2, false)
  const RR_TYPE := Slot(0, false)
  const RR_CLASS := Slot(2, false)
  const RR_TTL := Slot(4, true)
  const RR_LEN := Slot(8, false)

  /** The header fields packed into bytes 2 and 3. */
  datatype Flag = QR | OPCODE | AA | TC | RD | RA | Z | RCODE

  function FlagByte(f: Flag): (i: nat)
    ensures 2 <= i <= 3
  {
    match f
    case QR => 2 case OPCODE => 2 case AA => 2 case TC => 2 case RD => 2
    case RA => 3 case Z => 3 case RCODE => 3
  }

  /** DNS_HEADER_QR and its siblings, on the byte that holds the field. */
  function FlagBits(f: Flag, b: bv8): bv8 {
    match f
    case QR => (b >> 7) & 0x1
    case OPCODE => (b >> 3) & 0xf
    case AA => (b >> 2) & 0x1
    case TC => (b >> 1) & 0x1
    case RD => b & 0x1
    case RA => (b >> 7) & 0x1
    case Z => (b >> 4) & 0x7
    case RCODE => b & 0xf
  }

  function Low8(v: bv32): bv8 {
    (v & 0xff) as bv8
  }

  function Widen(b: bv8): bv32 {
    b as bv32
  }

  function Or(a: bv8, b: bv8): bv8 {
    a | b
  }

  function Byte1(v: bv32): bv8 {
    ((v >> 8) & 0xff) as bv8
  }

  function Byte2(v: bv32): bv8 {
    ((v >> 16) & 0xff) as bv8
  }

  function Byte3(v: bv32): bv8 {
    ((v >> 24) & 0xff) as bv8
  }

  /** v reduced to the width of the field. */
  function Fit(f: Flag, v: bv32): bv8 {
    match f
    case QR => Low8(v) & 0x1
    case OPCODE => Low8(v) & 0xf
    case AA => Low8(v) & 0x1
    case TC => Low8(v) & 0x1
    case RD => Low8(v) & 0x1
    case RA => Low8(v) & 0x1
    case Z => Low8(v) & 0x7
    case RCODE => Low8(v) & 0xf
  }

  /** The value modulo two to the width of the field. */
  function Modulo(f: Flag, v: bv32): bv32 {
    match f
    case OPCODE => v % 16
    case Z => v % 8
    case RCODE => v % 16
    case _ => v % 2
  }

  lemma LowBits(v: bv32)
    ensures v % 2 == v & 0x1 && v % 8 == v & 0x7 && v % 16 == v & 0xf
  {}

  lemma LowBitsOfByte(v: bv32)
    ensures Widen(Low8(v) & 0x1) == v & 0x1 && Widen(Low8(v) & 0x7) == v & 0x7 && Widen(Low8(v) & 0xf) == v & 0xf
  {}

  lemma FitIsModulo(f: Flag, v: bv32)
    ensures Widen(Fit(f, v)) == Modulo(f, v)
  {
    LowBits(v);
    LowBitsOfByte(v);
    hide Widen, Low8;
  }

  /** What DNS_HEADER_SET_QR and its siblings OR into the byte. */
  function FlagMask(f: Flag, v: bv32): bv8 {
    match f
    case QR => Fit(f, v) << 7
    case OPCODE => Fit(f, v) << 3
    case AA => Fit(f, v) << 2
    case TC => Fit(f, v) << 1
    case RD => Fit(f, v)
    case RA => Fit(f, v) << 7
    case Z => Fit(f, v) << 4
    case RCODE => Fit(f, v)
  }

  /** DNS__16BIT */
  function Word16(a: bv8, b: bv8): bv32 {
    0xffff & (((a as bv32) << 8) | (b as bv32))
  }

  /** DNS__32BIT */
  function Word32(a: bv8, b: bv8, c: bv8, d: bv8): bv32 {
    ((a as bv32) << 24) | ((b as bv32) << 16) | ((c as bv32) << 8) | (d as bv32)
  }

  function GetSlot(h: seq<bv8>, s: Slot): bv32
    requires s.End() <= |h|
  {
    if s.wide then Word32(h[s.off], h[s.off + 1], h[s.off + 2], h[s.off + 3])
    else Word16(h[s.off], h[s.off + 1])
  }

  function GetFlag(h: seq<bv8>, f: Flag): bv8
    requires FlagByte(f) < |h|
  {
    FlagBits(f, h[FlagByte(f)])
  }

  datatype Op = SetFlag(f: Flag, v: bv32) | SetSlot(s: Slot, v: bv32)

  predicate InBuffer(op: Op, n: nat) {
    match op
    case SetFlag(f, _) => FlagByte(f) < n
    case SetSlot(s, _) => s.End() <= n
  }

  function Apply(h: seq<bv8>, op: Op): (r: seq<bv8>)
    requires InBuffer(op, |h|)
    ensures |r| == |h|
  {
    match op
    case SetFlag(f, v) => h[FlagByte(f) := Or(h[FlagByte(f)], FlagMask(f, v))]
    case SetSlot(s, v) =>
      if s.wide then h[s.off := Byte3(v)][s.off + 1 := Byte2(v)][s.off + 2 := Byte1(v)][s.off + 3 := Low8(v)]
      else h[s.off := Byte1(v)][s.off + 1 := Low8(v)]
  }

  /** DNS__SET16BIT */
  method Store16(p: array<bv8>, off: nat, v: bv32)
    requires off + 2 <= p.Length
    modifies p
    ensures p[..] == Apply(old(p[..]), SetSlot(Slot(off, false), v))
  {
    p[off] := Byte1(v);
    p[off + 1] := Low8(v);
  }

  method PutFour<T>(p: array<T>, off: nat, a: T, b: T, c: T, d: T)
    requires off + 4 <= p.Length
    modifies p
    ensures p[..] == old(p[..])[off := a][off + 1 := b][off + 2 := c][off + 3 := d]
  {
    ghost var h := p[..];
    p[off] := a;
    assert p[..] == h[off := a];
    p[off + 1] := b;
    assert p[..] == h[off := a][off + 1 := b];
    p[off + 2] := c;
    assert p[..] == h[off := a][off + 1 := b][off + 2 := c];
    p[off + 3] := d;
  }

  /** DNS__SET32BIT */
  method Store32(p: array<bv8>, off: nat, v: bv32)
    requires off + 4 <= p.Length
    modifies p
    ensures p[..] == Apply(old(p[..]), SetSlot(Slot(off, true), v))
  {
    hide Byte3, Byte2, Byte1, Low8, FlagMask;
    PutFour(p, off, Byte3(v), Byte2(v), Byte1(v), Low8(v));
  }

  /** The right-hand side of each DNS_HEADER_SET_... macro of a flag field, computed on the
      whole argument and cut to a byte last. As a byte it reads as the value in its own
      field and as zero in every other field. */
  method MacroBits(f: Flag, v: bv32) returns (bits: bv8)
    ensures FlagBits(f, bits) == Fit(f, v)
    ensures forall g: Flag :: g != f && FlagByte(g) == FlagByte(f) ==> FlagBits(g, bits) == 0
    ensures bits == FlagMask(f, v)
  {
    match f
    case QR => bits := ((v & 0x1) << 7) as bv8;
    case OPCODE => bits := ((v & 0xf) << 3) as bv8;
    case AA => bits := ((v & 0x1) << 2) as bv8;
    case TC => bits := ((v & 0x1) << 1) as bv8;
    case RD => bits := (v & 0x1) as bv8;
    case RA => bits := ((v & 0x1) << 7) as bv8;
    case Z => bits := ((v & 0x7) << 4) as bv8;
    case RCODE => bits := (v & 0xf) as bv8;
  }

  method OrFlag(h: array<bv8>, f: Flag, v: bv32)
    requires FlagByte(f) < h.Length
    modifies h
    ensures h[..] == Apply(old(h[..]), SetFlag(f, v))
  {
    hide FlagMask;
    var bits := MacroBits(f, v);
    h[FlagByte(f)] := h[FlagByte(f)] | bits;
  }

  predicate AllInBuffer(ops: seq<Op>, n: nat) {
    forall op :: op in ops ==> InBuffer(op, n)
  }

  function Run(h: seq<bv8>, ops: seq<Op>): (r: seq<bv8>)
    requires AllInBuffer(ops, |h|)
    ensures |r| == |h|
  {
    if ops == [] then h else Apply(Run(h, ops[..|ops| - 1]), ops[|ops| - 1])
  }

  // ---- Where the fields lie --------------------------------------------------------------

  /** A number sent as two bytes, the first counting for the most. */
  function TwoBytes(h: seq<bv8>, i: nat): bv32
    requires i + 2 <= |h|
  {
    (h[i] as bv32) * 0x100 + (h[i + 1] as bv32)
  }

  /** Section 4.1.1 of RFC 1035: the identification and the four counts by byte number. */
  lemma HeaderLayout(h: seq<bv8>)
    requires |h| >= 12
    ensures GetSlot(h, HEADER_QID) == TwoBytes(h, 0)
    ensures GetSlot(h, HEADER_QDCOUNT) == TwoBytes(h, 4)
    ensures GetSlot(h, HEADER_ANCOUNT) == TwoBytes(h, 6)
    ensures GetSlot(h, HEADER_NSCOUNT) == TwoBytes(h, 8)
    ensures GetSlot(h, HEADER_ARCOUNT) == TwoBytes(h, 10)
  {
    BigEndian16(h[0], h[1]);
    BigEndian16(h[4], h[5]);
    BigEndian16(h[6], h[7]);
    BigEndian16(h[8], h[9]);
    BigEndian16(h[10], h[11]);
    hide Word16;
  }

  /** Its flags: how bytes 2 and 3 are made of them. */
  lemma FlagLayout(h: seq<bv8>)
    requires |h| >= 12
    ensures h[2] == GetFlag(h, QR) * 128 + GetFlag(h, OPCODE) * 8 + GetFlag(h, AA) * 4
                    + GetFlag(h, TC) * 2 + GetFlag(h, RD)
    ensures h[3] == GetFlag(h, RA) * 128 + GetFlag(h, Z) * 16 + GetFlag(h, RCODE)
    ensures GetFlag(h, QR) < 2 && GetFlag(h, OPCODE) < 16 && GetFlag(h, AA) < 2 && GetFlag(h, TC) < 2
    ensures GetFlag(h, RD) < 2 && GetFlag(h, RA) < 2 && GetFlag(h, Z) < 8 && GetFlag(h, RCODE) < 16
  {}

  /** Section 4.1.2: the question's fixed part. */
  lemma QuestionLayout(q: seq<bv8>)
    requires |q| >= 4
    ensures GetSlot(q, QUESTION_TYPE) == TwoBytes(q, 0) && GetSlot(q, QUESTION_CLASS) == TwoBytes(q, 2)
  {
    BigEndian16(q[0], q[1]);
    BigEndian16(q[2], q[3]);
    hide Word16;
  }

  /** Section 4.1.3: the record's fixed part. */
  lemma RecordLayout(r: seq<bv8>)
    requires |r| >= 10
    ensures GetSlot(r, RR_TYPE) == TwoBytes(r, 0) && GetSlot(r, RR_CLASS) == TwoBytes(r, 2)
    ensures GetSlot(r, RR_TTL) == TwoBytes(r, 4) * 0x1_0000 + TwoBytes(r, 6)
    ensures GetSlot(r, RR_LEN) == TwoBytes(r, 8)
  {
    BigEndian16(r[0], r[1]);
    BigEndian16(r[2], r[3]);
    BigEndian16(r[8], r[9]);
    FourBytes(r[4], r[5], r[6], r[7]);
    hide Word16, Word32;
  }

  lemma FourBytes(a: bv8, b: bv8, c: bv8, d: bv8)
    ensures Word32(a, b, c, d) ==
            ((a as bv32) * 0x100 + (b as bv32)) * 0x1_0000 + ((c as bv32) * 0x100 + (d as bv32))
  {}

  // ---- One write ---------------------------------------------------------------------

  /** A flag setter ORs into its own field and leaves the others of the byte alone. */
  lemma FlagAfterFlag(f: Flag, g: Flag, b: bv8, v: bv32)
    requires FlagByte(f) == FlagByte(g)
    ensures FlagBits(f, Or(b, FlagMask(g, v))) == if f == g then Or(FlagBits(f, b), Fit(f, v)) else FlagBits(f, b)
  {
    match f case QR => case OPCODE => case AA => case TC => case RD => case RA => case Z => case RCODE =>
  }

  lemma Word16AfterStore(v: bv32)
    ensures Word16(Byte1(v), Low8(v)) == v & 0xffff
  {}

  lemma Word32AfterStore(v: bv32)
    ensures Word32(Byte3(v), Byte2(v), Byte1(v), Low8(v)) == v
  {}

  /** Network byte order: the first byte counts for the most. */
  lemma BigEndian16(a: bv8, b: bv8)
    ensures Word16(a, b) == (a as bv32) * 0x100 + (b as bv32)
  {}

  lemma BigEndian32(a: bv8, b: bv8, c: bv8, d: bv8)
    ensures Word32(a, b, c, d) ==
            (a as bv32) * 0x100_0000 + (b as bv32) * 0x1_0000 + (c as bv32) * 0x100 + (d as bv32)
  {}

  /** v reduced to the width of the slot. */
  function FitSlot(s: Slot, v: bv32): bv32 {
    if s.wide then v else v & 0xffff
  }

  ghost predicate Apart(s: Slot, t: Slot) {
    s.End() <= t.off || t.End() <= s.off
  }

  /** The write either is to this slot or touches none of its bytes. */
  ghost predicate Respects(op: Op, s: Slot) {
    match op
    case SetFlag(f, _) => FlagByte(f) < s.off || s.End() <= FlagByte(f)
    case SetSlot(t, _) => t == s || Apart(s, t)
  }

  ghost predicate SparesFlag(op: Op, f: Flag) {
    op.SetSlot? ==> FlagByte(f) < op.s.off || op.s.End() <= FlagByte(f)
  }

  lemma SlotAfterWrite(h: seq<bv8>, op: Op, s: Slot)
    requires s.End() <= |h| && InBuffer(op, |h|) && Respects(op, s)
    ensures GetSlot(Apply(h, op), s) == if op.SetSlot? && op.s == s then FitSlot(s, op.v) else GetSlot(h, s)
  {
    hide Word16, Word32, Byte3, Byte2, Byte1, Low8, FlagMask;
    if op.SetSlot? && op.s == s {
      Word16AfterStore(op.v);
      Word32AfterStore(op.v);
    }
  }

  lemma FlagAfterWrite(h: seq<bv8>, op: Op, f: Flag)
    requires FlagByte(f) < |h| && InBuffer(op, |h|) && SparesFlag(op, f)
    ensures GetFlag(Apply(h, op), f) ==
            if op.SetFlag? && op.f == f then Or(GetFlag(h, f), Fit(f, op.v)) else GetFlag(h, f)
  {
    hide Or, FlagBits, FlagMask, Fit, Byte3, Byte2, Byte1, Low8;
    if op.SetFlag? && FlagByte(op.f) == FlagByte(f) {
      FlagAfterFlag(f, op.f, h[FlagByte(f)], op.v);
    }
  }

  // ---- Any sequence of writes ------------------------------------------------------------

  /** Everything ORed into a flag field. */
  function Ored(ops: seq<Op>, f: Flag): bv8 {
    if ops == [] then 0
    else
      var op := ops[|ops| - 1];
      if op.SetFlag? && op.f == f then Or(Ored(ops[..|ops| - 1], f), Fit(f, op.v)) else Ored(ops[..|ops| - 1], f)
  }

  /** The value a slot was last given, or the one it had. */
  function Last(ops: seq<Op>, s: Slot, before: bv32): bv32 {
    if ops == [] then before
    else
      var op := ops[|ops| - 1];
      if op.SetSlot? && op.s == s then FitSlot(s, op.v) else Last(ops[..|ops| - 1], s, before)
  }

  lemma OrLaws(a: bv8, b: bv8, c: bv8)
    ensures Or(a, a) == a && Or(a, 0) == a && Or(0, a) == a && Or(Or(a, b), c) == Or(a, Or(b, c))
  {}

  lemma {:induction false} FlagAfterRun(h: seq<bv8>, ops: seq<Op>, f: Flag)
    requires FlagByte(f) < |h|
    requires AllInBuffer(ops, |h|) && forall op :: op in ops ==> SparesFlag(op, f)
    ensures GetFlag(Run(h, ops), f) == Or(GetFlag(h, f), Ored(ops, f))
  {
    hide Or, FlagBits, Fit;
    OrLaws(GetFlag(h, f), 0, 0);
    if ops != [] {
      var n := |ops| - 1;
      FlagAfterRun(h, ops[..n], f);
      FlagAfterWrite(Run(h, ops[..n]), ops[n], f);
      OrLaws(GetFlag(h, f), Ored(ops[..n], f), Fit(f, ops[n].v));
    }
  }

  lemma {:induction false} SlotAfterRun(h: seq<bv8>, ops: seq<Op>, s: Slot)
    requires s.End() <= |h|
    requires AllInBuffer(ops, |h|) && forall op :: op in ops ==> Respects(op, s)
    ensures GetSlot(Run(h, ops), s) == Last(ops, s, GetSlot(h, s))
  {
    if ops != [] {
      var n := |ops| - 1;
      SlotAfterRun(h, ops[..n], s);
      SlotAfterWrite(Run(h, ops[..n]), ops[n], s);
    }
  }

  // ---- The header, the question and the resource record ---------------------------------

  predicate HeaderSlot(s: Slot) {
    s == HEADER_QID || s == HEADER_QDCOUNT || s == HEADER_ANCOUNT || s == HEADER_NSCOUNT || s == HEADER_ARCOUNT
  }

  predicate QuestionSlot(s: Slot) {
    s == QUESTION_TYPE || s == QUESTION_CLASS
  }

  predicate RecordSlot(s: Slot) {
    s == RR_TYPE || s == RR_CLASS || s == RR_TTL || s == RR_LEN
  }

  predicate HeaderOp(op: Op) {
    op.SetSlot? ==> HeaderSlot(op.s)
  }

  predicate QuestionOp(op: Op) {
    op.SetSlot? && QuestionSlot(op.s)
  }

  predicate RecordOp(op: Op) {
    op.SetSlot? && RecordSlot(op.s)
  }

  /** After any sequence of header setters a flag field is the OR of what it was and all
      it was given, and a 16-bit field is what it was last given: no field disturbs another. */
  lemma HeaderFields(h: seq<bv8>, ops: seq<Op>, f: Flag, s: Slot)
    requires |h| >= 12 && HeaderSlot(s) && AllInBuffer(ops, |h|) && forall op :: op in ops ==> HeaderOp(op)
    ensures GetFlag(Run(h, ops), f) == Or(GetFlag(h, f), Ored(ops, f))
    ensures GetSlot(Run(h, ops), s) == Last(ops, s, GetSlot(h, s))
  {
    FlagAfterRun(h, ops, f);
    SlotAfterRun(h, ops, s);
  }

  lemma QuestionFields(q: seq<bv8>, ops: seq<Op>, s: Slot)
    requires |q| >= 4 && QuestionSlot(s) && AllInBuffer(ops, |q|) && forall op :: op in ops ==> QuestionOp(op)
    ensures GetSlot(Run(q, ops), s) == Last(ops, s, GetSlot(q, s))
  {
    SlotAfterRun(q, ops, s);
  }

  lemma RecordFields(r: seq<bv8>, ops: seq<Op>, s: Slot)
    requires |r| >= 10 && RecordSlot(s) && AllInBuffer(ops, |r|) && forall op :: op in ops ==> RecordOp(op)
    ensures GetSlot(Run(r, ops), s) == Last(ops, s, GetSlot(r, s))
  {
    SlotAfterRun(r, ops, s);
  }

  /** Because flag setters OR, setting a field takes effect exactly when every bit the
      field already has is among the bits being written. */
  lemma FlagSetIsExact(h: seq<bv8>, f: Flag, v: bv32)
    requires |h| >= 12
    ensures GetFlag(Apply(h, SetFlag(f, v)), f) == Fit(f, v) <==> GetFlag(h, f) & Fit(f, v) == GetFlag(h, f)
  {
    FlagAfterWrite(h, SetFlag(f, v), f);
    OrIsSubset(GetFlag(h, f), Fit(f, v));
  }

  lemma OrIsSubset(a: bv8, b: bv8)
    ensures a | b == b <==> a & b == a
  {}

  // ---- Rebuilding a header from its fields -----------------------------------------------

  const ZEROED: seq<bv8> := seq(12, i => 0)

  /** The write that gives a field the value it has in h. */
  predicate CopiesFrom(h: seq<bv8>, op: Op)
    requires |h| == 12
  {
    match op
    case SetFlag(f, v) => v == Widen(GetFlag(h, f))
    case SetSlot(s, v) => HeaderSlot(s) && v == GetSlot(h, s)
  }

  ghost predicate WritesFlag(ops: seq<Op>, f: Flag) {
    exists op :: op in ops && op.SetFlag? && op.f == f
  }

  ghost predicate WritesSlot(ops: seq<Op>, s: Slot) {
    exists op :: op in ops && op.SetSlot? && op.s == s
  }

  lemma FitsItself(f: Flag, b: bv8)
    ensures Fit(f, Widen(FlagBits(f, b))) == FlagBits(f, b)
  {
    match f case QR => case OPCODE => case AA => case TC => case RD => case RA => case Z => case RCODE =>
  }

  lemma WritesFlagLast(ops: seq<Op>, f: Flag)
    requires ops != []
    ensures
      var op := ops[|ops| - 1];
      WritesFlag(ops, f) <==> WritesFlag(ops[..|ops| - 1], f) || (op.SetFlag? && op.f == f)
  {
    var n := |ops| - 1;
    assert ops == ops[..n] + [ops[n]];
  }

  lemma {:induction false} OredCopies(h: seq<bv8>, ops: seq<Op>, f: Flag)
    requires |h| == 12 && forall op :: op in ops ==> CopiesFrom(h, op)
    ensures Ored(ops, f) == if WritesFlag(ops, f) then GetFlag(h, f) else 0
  {
    hide Or, Fit, FlagBits, Widen;
    if ops != [] {
      var n := |ops| - 1;
      OredCopies(h, ops[..n], f);
      WritesFlagLast(ops, f);
      assert CopiesFrom(h, ops[n]);
      FitsItself(f, h[FlagByte(f)]);
      OrLaws(GetFlag(h, f), 0, 0);
    }
  }

  lemma {:induction false} LastCopy(h: seq<bv8>, ops: seq<Op>, s: Slot, before: bv32)
    requires |h| == 12 && HeaderSlot(s) && forall op :: op in ops ==> CopiesFrom(h, op)
    requires WritesSlot(ops, s)
    ensures Last(ops, s, before) == GetSlot(h, s)
  {
    var n := |ops| - 1;
    assert ops == ops[..n] + [ops[n]];
    assert CopiesFrom(h, ops[n]);
    if ops[n].SetSlot? && ops[n].s == s {
      SlotFitsItself(h, s);
    } else {
      LastCopy(h, ops[..n], s, before);
    }
  }

  lemma SlotFitsItself(h: seq<bv8>, s: Slot)
    requires s.End() <= |h|
    ensures FitSlot(s, GetSlot(h, s)) == GetSlot(h, s)
  {}

  lemma WordBytes(a: bv8, b: bv8, c: bv8, d: bv8)
    ensures Word16(a, b) == Word16(c, d) ==> a == c && b == d
  {}

  lemma FlagsMakeByte2(a: bv8, b: bv8)
    requires FlagBits(QR, a) == FlagBits(QR, b) && FlagBits(OPCODE, a) == FlagBits(OPCODE, b)
    requires FlagBits(AA, a) == FlagBits(AA, b) && FlagBits(TC, a) == FlagBits(TC, b)
    requires FlagBits(RD, a) == FlagBits(RD, b)
    ensures a == b
  {}

  lemma FlagsMakeByte3(a: bv8, b: bv8)
    requires FlagBits(RA, a) == FlagBits(RA, b) && FlagBits(Z, a) == FlagBits(Z, b)
    requires FlagBits(RCODE, a) == FlagBits(RCODE, b)
    ensures a == b
  {}

  /** A header is its thirteen fields. */
  lemma FieldsMakeHeader(h: seq<bv8>, g: seq<bv8>)
    requires |h| == |g| == 12
    requires forall f :: GetFlag(h, f) == GetFlag(g, f)
    requires forall s :: HeaderSlot(s) ==> GetSlot(h, s) == GetSlot(g, s)
    ensures h == g
  {
    hide FlagBits, Word16, Word32;
    FlagsMakeByte2(h[2], g[2]) by {
      assert GetFlag(h, QR) == GetFlag(g, QR) && GetFlag(h, OPCODE) == GetFlag(g, OPCODE);
      assert GetFlag(h, AA) == GetFlag(g, AA) && GetFlag(h, TC) == GetFlag(g, TC) && GetFlag(h, RD) == GetFlag(g, RD);
    }
    FlagsMakeByte3(h[3], g[3]) by {
      assert GetFlag(h, RA) == GetFlag(g, RA) && GetFlag(h, Z) == GetFlag(g, Z);
      assert GetFlag(h, RCODE) == GetFlag(g, RCODE);
    }
    SlotMakesBytes(h, g, HEADER_QID);
    SlotMakesBytes(h, g, HEADER_QDCOUNT);
    SlotMakesBytes(h, g, HEADER_ANCOUNT);
    SlotMakesBytes(h, g, HEADER_NSCOUNT);
    SlotMakesBytes(h, g, HEADER_ARCOUNT);
  }

  lemma SlotMakesBytes(h: seq<bv8>, g: seq<bv8>, s: Slot)
    requires |h| == |g| && s.End() <= |h| && !s.wide && GetSlot(h, s) == GetSlot(g, s)
    ensures h[s.off] == g[s.off] && h[s.off + 1] == g[s.off + 1]
  {
    WordBytes(h[s.off], h[s.off + 1], g[s.off], g[s.off + 1]);
  }

  /** Writing every field of a header into a zeroed one, in any order and any number of
      times each, rebuilds the header byte for byte. */
  lemma HeaderRebuilt(h: seq<bv8>, ops: seq<Op>)
    requires |h| == 12 && AllInBuffer(ops, 12) && forall op :: op in ops ==> CopiesFrom(h, op)
    requires forall f: Flag :: WritesFlag(ops, f)
    requires forall s :: HeaderSlot(s) ==> WritesSlot(ops, s)
    ensures Run(ZEROED, ops) == h
  {
    var g := Run(ZEROED, ops);
    hide Or, FlagBits;
    forall f ensures GetFlag(g, f) == GetFlag(h, f) {
      FlagAfterRun(ZEROED, ops, f);
      OredCopies(h, ops, f);
      ZeroFlag(f, GetFlag(h, f));
    }
    forall s | HeaderSlot(s) ensures GetSlot(g, s) == GetSlot(h, s) {
      SlotAfterRun(ZEROED, ops, s);
      LastCopy(h, ops, s, GetSlot(ZEROED, s));
    }
    FieldsMakeHeader(g, h);
  }

  lemma ZeroFlag(f: Flag, x: bv8)
    ensures Or(FlagBits(f, 0), x) == x
  {
    match f case QR => case OPCODE => case AA => case TC => case RD => case RA => case Z => case RCODE =>
  }
}
