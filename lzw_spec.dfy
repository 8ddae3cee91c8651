/**
 * Reference definitions of the LZW coder in project2/MyLZW.java: the codebook policy shared by
 * compress and expand, the forward codebook (byte string to code) and the inverse codebook (code
 * to byte string), and the encoder and decoder written as recursive functions over the input and
 * the code stream. The imperative coder in module MyLzw is proved equal to these functions and
 * the round trip is proved about them in module LzwRoundTrip.
 *
 * The bit stream is a sequence of codewords, each a value with the width it was written at; the
 * first one is the 2-bit mode header.
 */
module LzwSpec {
  import opened Wrappers

  /** Number of literal input symbols; also the end-of-stream codeword. */
  const R: nat := 256
  const Eof: nat := 256
  const MinCodeWidth: nat := 9
  const MaxCodeWidth: nat := 16

  type Byte = b: int | 0 <= b < 256
  type Bytes = seq<Byte>

  /** One codeword of the stream: `value` written in `width` bits. */
  datatype Codeword = Codeword(value: nat, width: nat)

  function Pow2(n: nat): (r: nat)
    ensures r >= 1
  {
    if n == 0 then 1 else 2 * Pow2(n - 1)
  }

  lemma {:induction false} Pow2Monotonic(m: nat, n: nat)
    requires m <= n
    ensures Pow2(m) <= Pow2(n)
  {
    if m < n {
      Pow2Monotonic(m, n - 1);
    }
  }

  /**
   * The state compress and expand keep beside their codebooks: the mode, the code width W (the
   * capacity L is 2^W), the next code to assign, the bit counters and the monitor of mode 2.
   * The ratio recorded when the table first fills is kept as the fraction lastIn / lastOut.
   */
  datatype Policy = Policy(mode: nat, w: nat, code: nat, inBits: nat, outBits: nat,
                           monitor: bool, lastIn: nat, lastOut: nat)

  /** The state at the start of a stream: nothing read or written, lastRatio = 1. */
  function Initial(mode: nat, w: nat): Policy {
    Policy(mode, w, R + 1, 0, 0, false, 1, 1)
  }

  /** 9 <= W <= 16 and 257 <= code <= L. */
  predicate PolicyOk(p: Policy) {
    MinCodeWidth <= p.w <= MaxCodeWidth && R + 1 <= p.code <= Pow2(p.w)
  }

  /** lastRatio / currentRatio > 1.1, with both ratios as fractions of bit counts. */
  predicate Degraded(lastIn: nat, lastOut: nat, curIn: nat, curOut: nat) {
    10 * lastIn * curOut > 11 * lastOut * curIn
  }

  /** Counting the bits of one codeword standing for `t` input bytes. */
  function Account(p: Policy, t: nat): Policy {
    p.(inBits := p.inBits + 8 * t, outBits := p.outBits + p.w)
  }

  /**
   * The grow-or-reset check both coders run once the next code reaches L: widen W if it is below
   * 16; otherwise mode 1 clears the codebook, mode 2 records the ratio the first time and clears
   * when it has degraded by more than 10%, and any other mode keeps the full table. The second
   * component says whether the codebook is cleared.
   */
  function Check(p: Policy): (Policy, bool) {
    if p.code < Pow2(p.w) then (p, false)
    else if p.w + 1 <= MaxCodeWidth then (p.(w := p.w + 1), false)
    else if p.mode == 1 then (p.(code := R + 1, w := MinCodeWidth), true)
    else if p.mode == 2 then
      if !p.monitor then (p.(monitor := true, lastIn := p.inBits, lastOut := p.outBits), false)
      else if Degraded(p.lastIn, p.lastOut, p.inBits, p.outBits) then
        (p.(monitor := false, code := R + 1, w := MinCodeWidth), true)
      else (p, false)
    else (p, false)
  }

  // ---------------------------------------------------------------- forward codebook

  type Forward = map<Bytes, nat>

  /** The 256 one-byte strings. */
  function LiteralKeys(): set<Bytes> {
    set b: Byte :: [b]
  }

  /** The 256 one-byte strings, each mapped to its own byte value. */
  function Literals(): (st: Forward) {
    map k: Bytes | k in LiteralKeys() :: k[0] as nat
  }

  /** Every one-byte string is in the codebook. */
  ghost predicate Seeded(st: Forward) {
    forall b: Byte :: [b] in st
  }

  /**
   * The length of the longest key of `st` that is a prefix of `q`, looking at lengths up to `k`;
   * 0 when there is none (a TST's longestPrefixOf, with the TST replaced by a map).
   */
  function LongestPrefixUpTo(st: Forward, q: Bytes, k: nat): (r: nat)
    requires k <= |q|
    ensures r <= k
    ensures r > 0 ==> q[..r] in st
    ensures forall j :: r < j <= k ==> q[..j] !in st
  {
    if k == 0 then 0
    else if q[..k] in st then k
    else LongestPrefixUpTo(st, q, k - 1)
  }

  /** `r` is the length of the longest key of `st` that is a prefix of `q`. */
  ghost predicate IsLongestPrefix(st: Forward, q: Bytes, r: nat) {
    && 1 <= r <= |q| && q[..r] in st
    && forall j :: r < j <= |q| ==> q[..j] !in st
  }

  /** The length of the longest key of `st` that is a prefix of `q`. */
  ghost function LongestPrefix(st: Forward, q: Bytes): (r: nat)
    requires Seeded(st) && |q| > 0
    ensures IsLongestPrefix(st, q, r)
  {
    assert q[..1] == [q[0]];
    assert IsLongestPrefix(st, q, LongestPrefixUpTo(st, q, |q|));
    var r :| IsLongestPrefix(st, q, r); r
  }

  /** There is only one longest prefix. */
  lemma LongestPrefixUnique(st: Forward, q: Bytes, r: nat)
    requires Seeded(st) && |q| > 0 && IsLongestPrefix(st, q, r)
    ensures r == LongestPrefix(st, q)
  {
  }

  // ---------------------------------------------------------------- encoder

  /** The codewords written after the header, and the state when the sentinel is written. */
  datatype Encoded = Encoded(codes: seq<Codeword>, last: Policy)

  lemma LiteralsSeeded()
    ensures Seeded(Literals())
    ensures forall b: Byte :: Literals()[[b]] == b
  {
  }

  /** The keys of the fresh codebook are exactly the one-byte strings. */
  lemma LiteralMember(k: Bytes)
    ensures k in Literals() <==> |k| == 1
  {
    if |k| == 1 {
      assert k == [k[0]];
    }
  }

  /** A new entry for `key` at the next code, unless the table is full (code == L). */
  function Add(st: Forward, p: Policy, key: Bytes): (r: (Forward, Policy))
    requires Seeded(st)
    ensures Seeded(r.0)
  {
    if p.code < Pow2(p.w) then (st[key := p.code], p.(code := p.code + 1)) else (st, p)
  }

  /**
   * The codewords compress writes for the remaining input `rest`: the code of the longest known
   * prefix s at the current width; then, when more input follows, the grow-or-reset check and,
   * if the table is not full, a new entry for s plus the next byte; finally the sentinel at the
   * width in effect. With `checkLast` the check also runs after the last data codeword (the
   * corrected coder); without it, this is the code as written, which skips it there.
   */
  ghost function EncodeFrom(st: Forward, p: Policy, rest: Bytes, checkLast: bool): Encoded
    requires Seeded(st)
    decreases |rest|
  {
    if |rest| == 0 then Encoded([Codeword(Eof, p.w)], p)
    else
      var t := LongestPrefix(st, rest);
      var c := Codeword(st[rest[..t]], p.w);
      var p1 := Account(p, t);
      if t == |rest| then
        var p2 := if checkLast then Check(p1).0 else p1;
        Encoded([c, Codeword(Eof, p2.w)], p2)
      else
        var n := Next(st, p1, rest[..t + 1]);
        var tail := EncodeFrom(n.0, n.1, rest[t..], checkLast);
        Encoded([c] + tail.codes, tail.last)
  }

  /**
   * What compress does between two data codewords: the grow-or-reset check, then the entry for
   * `key` unless the table is full.
   */
  function Next(st: Forward, p1: Policy, key: Bytes): (r: (Forward, Policy))
    requires Seeded(st)
    ensures Seeded(r.0)
  {
    var (p2, cleared) := Check(p1);
    LiteralsSeeded();
    Add(if cleared then Literals() else st, p2, key)
  }

  /** The whole stream compress writes for `input` in `mode`, starting at code width `w`. */
  ghost function CompressStream(mode: nat, w: nat, input: Bytes, checkLast: bool): seq<Codeword> {
    LiteralsSeeded();
    [Codeword(mode, 2)] + EncodeFrom(Literals(), Initial(mode, w), input, checkLast).codes
  }

  /** The state of the encoder when it writes the sentinel. */
  ghost function CompressLast(mode: nat, w: nat, input: Bytes, checkLast: bool): Policy {
    LiteralsSeeded();
    EncodeFrom(Literals(), Initial(mode, w), input, checkLast).last
  }

  // ---------------------------------------------------------------- decoder

  type Inverse = seq<Bytes>

  /** The 256 one-byte strings at their own index, then the unused entry "" for the sentinel. */
  function InverseLiterals(): (st: Inverse) {
    seq(R + 1, i requires 0 <= i <= R => if i < R then [i as Byte] else [])
  }

  /** What decoding can fail with. */
  datatype DecodeError =
    | ReadFailed   // the stream ends, or the next codeword was not written at the width read
    | UnknownCode  // a codeword beyond the end of the codebook list

  /** Reading one `w`-bit codeword at position `pos`. */
  function ReadCode(stream: seq<Codeword>, pos: nat, w: nat): Option<nat> {
    if pos < |stream| && stream[pos].width == w && stream[pos].value < Pow2(w)
    then Some(stream[pos].value) else None
  }

  /** The list length is the next code, and every entry but the sentinel's is non-empty. */
  ghost predicate InverseOk(dst: Inverse, p: Policy) {
    |dst| == p.code && forall c :: 0 <= c < |dst| && c != Eof ==> dst[c] != []
  }

  function PrependBytes(prefix: Bytes, r: Result<Bytes, DecodeError>): Result<Bytes, DecodeError> {
    match r
    case Success(rest) => Success(prefix + rest)
    case Failure(e) => Failure(e)
  }

  /** The inverse of Add: the entry is appended at index code, unless the table is full. */
  function Append(dst: Inverse, p: Policy, entry: Bytes): (r: (Inverse, Policy))
    requires InverseOk(dst, p) && |entry| > 0
    ensures InverseOk(r.0, r.1)
  {
    if p.code < Pow2(p.w) then (dst + [entry], p.(code := p.code + 1)) else (dst, p)
  }

  /** What expand does before each read: the grow-or-reset check, clearing its list if needed. */
  function Prepare(dst: Inverse, p1: Policy): (r: (Inverse, Policy))
    requires InverseOk(dst, p1)
    ensures InverseOk(r.0, r.1)
  {
    var (p2, cleared) := Check(p1);
    (if cleared then InverseLiterals() else dst, p2)
  }

  /**
   * One pass of expand's loop and all that follow it: count the bits of `val`, run the
   * grow-or-reset check, write `val`, read the next codeword at the width now in effect, stop at
   * the sentinel, decode a codeword equal to the next code as val + val[0], and add
   * val + s[0] while the table is not full.
   */
  function DecodeFrom(dst: Inverse, p: Policy, val: Bytes, stream: seq<Codeword>, pos: nat)
    : Result<Bytes, DecodeError>
    requires InverseOk(dst, p) && |val| > 0
    decreases |stream| - pos
  {
    var (dst2, p2) := Prepare(dst, Account(p, |val|));
    match ReadCode(stream, pos, p2.w)
    case None => Failure(ReadFailed)
    case Some(c) =>
      if c == Eof then Success(val)
      else if c != p2.code && c >= |dst2| then Failure(UnknownCode)
      else
        var s := if c == p2.code then val + [val[0]] else dst2[c];
        var (dst3, p3) := Append(dst2, p2, val + [s[0]]);
        PrependBytes(val, DecodeFrom(dst3, p3, s, stream, pos + 1))
  }

  /** What expand writes for `stream`, starting at code width `w`. */
  function ExpandStream(stream: seq<Codeword>, w: nat): Result<Bytes, DecodeError> {
    match ReadCode(stream, 0, 2)
    case None => Failure(ReadFailed)
    case Some(mode) =>
      match ReadCode(stream, 1, w)
      case None => Failure(ReadFailed)
      case Some(c) =>
        if c == Eof then Success([])
        else if c > R then Failure(UnknownCode)
        else DecodeFrom(InverseLiterals(), Initial(mode, w), [c as Byte], stream, 2)
  }
}
