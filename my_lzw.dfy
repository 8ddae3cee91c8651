/**
 * MyLZW as the program runs it: the mode and the code width W and table size L are state that
 * compress and expand update in place, and each coder is a loop over the input. Each method is
 * proved to produce exactly what the reference coder of LzwSpec produces, so the properties
 * proved of that coder (the round trip, the hazard input) hold of these loops.
 */
module MyLzwCoder {
  import opened Wrappers
  import opened LzwSpec

  class MyLzw {
    /** 0: keep the full table, 1: reset it, 2: reset when the ratio degrades; read back by expand. */
    var mode: nat
    /** The current codeword width. */
    var W: nat
    /** The number of codewords at width W. */
    var L: nat

    ghost predicate Valid()
      reads this
    {
      mode < 4 && MinCodeWidth <= W <= MaxCodeWidth && L == Pow2(W)
    }

    /** The program's initial state: mode 0, W = 9, L = 512. */
    constructor ()
      ensures Valid() && mode == 0 && W == MinCodeWidth
    {
      mode := 0;
      W := MinCodeWidth;
      L := 512;
    }

    /** Sets W to `newWidth` and L to 2^W when the new width is at most 16, or reports failure. */
    method ResizeCodeWidth(newWidth: nat) returns (resized: bool)
      modifies this
      ensures resized == (newWidth <= MaxCodeWidth)
      ensures resized ==> W == newWidth && L == Pow2(newWidth)
      ensures !resized ==> W == old(W) && L == old(L)
      ensures mode == old(mode)
    {
      if newWidth <= MaxCodeWidth {
        W := newWidth;
        L := Pow2(W);
        resized := true;
      } else {
        resized := false;
      }
    }

    /**
     * The check both coders run when the next code reaches L: widen W while it is below 16;
     * at 16, mode 1 asks for the codebook to be cleared, and mode 2 starts monitoring the
     * compression ratio the first time and asks for a clear when it has degraded by more than
     * 10% since. A clear also puts W back at 9. The caller clears its own codebook.
     */
    method GrowOrReset(code: nat, inBits: nat, outBits: nat, monitor: bool, lastIn: nat, lastOut: nat)
      returns (clear: bool, monitor': bool, lastIn': nat, lastOut': nat)
      requires Valid()
      modifies this
      ensures Valid() && mode == old(mode)
      ensures (Policy(mode, W, if clear then R + 1 else code, inBits, outBits, monitor', lastIn', lastOut'), clear)
        == Check(Policy(mode, old(W), code, inBits, outBits, monitor, lastIn, lastOut))
    {
      clear, monitor', lastIn', lastOut' := false, monitor, lastIn, lastOut;
      if code >= L {
        var grown := ResizeCodeWidth(W + 1);
        if !grown {
          if mode == 1 {
            clear := true;
          } else if mode == 2 {
            if !monitor {
              lastIn', lastOut' := inBits, outBits;
              monitor' := true;
            } else if Degraded(lastIn, lastOut, inBits, outBits) {
              clear := true;
              monitor' := false;
            }
          }
          if clear {
            var reset := ResizeCodeWidth(MinCodeWidth);
          }
        }
      }
    }

    /** The compress codebook: every one-byte string at its own byte value. */
    static method ResetCodebookCompress() returns (table: Forward)
      ensures table == Literals()
    {
      table := map[];
      var i := 0;
      while i < R
        invariant 0 <= i <= R
        invariant table == map k: Bytes | k in LiteralKeys() && k[0] < i :: k[0] as nat
      {
        table := table[[i as Byte] := i];
        i := i + 1;
      }
    }

    /** The expand codebook: the one-byte strings at their own index, then "" for the sentinel. */
    static method ResetCodebookExpand() returns (list: Inverse)
      ensures list == InverseLiterals()
    {
      list := [];
      var i := 0;
      while i < R
        invariant 0 <= i <= R
        invariant list == seq(i, j requires 0 <= j < i => [j as Byte])
      {
        list := list + [[i as Byte]];
        i := i + 1;
      }
      list := list + [[]];
    }

    /**
     * What compress does after a phrase when input remains: the grow-or-reset check, clearing
     * the codebook and restarting at code 257 if it asks for that, then the entry `key` at the
     * next code unless the table is full.
     */
    method AddPhrase(st: Forward, key: Bytes, code: nat, inBits: nat, outBits: nat, monitor: bool,
                     lastIn: nat, lastOut: nat)
      returns (st': Forward, code': nat, monitor': bool, lastIn': nat, lastOut': nat)
      requires Valid() && Seeded(st)
      modifies this
      ensures Valid() && mode == old(mode)
      ensures (st', Policy(mode, W, code', inBits, outBits, monitor', lastIn', lastOut'))
        == Next(st, Policy(mode, old(W), code, inBits, outBits, monitor, lastIn, lastOut), key)
    {
      var clear;
      st', code' := st, code;
      clear, monitor', lastIn', lastOut' := GrowOrReset(code, inBits, outBits, monitor, lastIn, lastOut);
      if clear {
        st' := ResetCodebookCompress();
        code' := R + 1;
      }
      if code' < L {
        st' := st'[key := code'];
        code' := code' + 1;
      }
    }

    /**
     * Writes the mode in 2 bits, then for each longest known prefix of the remaining input its
     * code at the current width, growing or resetting the table and adding the prefix plus the
     * next byte while input remains; finally the sentinel R at the width in effect.
     */
    method Compress(input: Bytes) returns (out: seq<Codeword>)
      requires Valid()
      modifies this
      ensures Valid() && mode == old(mode)
      ensures out == CompressStream(mode, old(W), input, false)
      ensures W == CompressLast(mode, old(W), input, false).w
    {
      ghost var w0 := W;
      LiteralsSeeded();
      out := [Codeword(mode, 2)];
      var inBits: nat, outBits: nat, monitor, lastIn: nat, lastOut: nat := 0, 0, false, 1, 1;
      var st: Forward := ResetCodebookCompress();
      var code: nat := R + 1;
      var rest := input;
      while |rest| > 0
        invariant Valid() && mode == old(mode) && Seeded(st)
        invariant var e := EncodeFrom(st, Policy(mode, W, code, inBits, outBits, monitor, lastIn, lastOut), rest, false);
          out + e.codes == CompressStream(mode, w0, input, false)
          && e.last == CompressLast(mode, w0, input, false)
        decreases |rest|
      {
        ghost var p := Policy(mode, W, code, inBits, outBits, monitor, lastIn, lastOut);
        ghost var st0, out0, rest0 := st, out, rest;
        var t := LongestPrefixUpTo(st, rest, |rest|);
        assert rest[..1] == [rest[0]];
        LongestPrefixUnique(st, rest, t);
        out := out + [Codeword(st[rest[..t]], W)];
        inBits := inBits + t * 8;
        outBits := outBits + W;
        assert Policy(mode, W, code, inBits, outBits, monitor, lastIn, lastOut) == Account(p, t);
        if t < |rest| {
          st, code, monitor, lastIn, lastOut := AddPhrase(st, rest[..t + 1], code, inBits, outBits, monitor, lastIn, lastOut);
        }
        rest := rest[t..];
        CompressStep(st0, p, rest0, t, out0);
      }
      out := out + [Codeword(R, W)];
    }

    /**
     * What expand does before each read: the grow-or-reset check, and a fresh codebook list and
     * next code 257 if it asks for a clear.
     */
    method PrepareRead(st: Inverse, i: nat, inBits: nat, outBits: nat, monitor: bool,
                       lastIn: nat, lastOut: nat)
      returns (st': Inverse, i': nat, monitor': bool, lastIn': nat, lastOut': nat)
      requires Valid() && InverseOk(st, Policy(mode, W, i, inBits, outBits, monitor, lastIn, lastOut))
      modifies this
      ensures Valid() && mode == old(mode)
      ensures (st', Policy(mode, W, i', inBits, outBits, monitor', lastIn', lastOut'))
        == Prepare(st, Policy(mode, old(W), i, inBits, outBits, monitor, lastIn, lastOut))
    {
      var clear;
      st', i' := st, i;
      clear, monitor', lastIn', lastOut' := GrowOrReset(i, inBits, outBits, monitor, lastIn, lastOut);
      if clear {
        st' := ResetCodebookExpand();
        i' := R + 1;
      }
    }

    /**
     * Reads the mode in 2 bits, then codewords at the current width until the sentinel R: each
     * is the next code (decoded as the previous string plus its own first byte) or an entry of
     * the list; before each read the grow-or-reset check runs, and after it the previous string
     * plus the first byte of the new one is appended while the table is not full. A read that
     * fails or a codeword past the end of the list is an error.
     */
    method Expand(stream: seq<Codeword>) returns (r: Result<Bytes, DecodeError>)
      requires Valid()
      modifies this
      ensures Valid()
      ensures r == ExpandStream(stream, old(W))
      ensures ReadCode(stream, 0, 2).Some? ==> mode == ReadCode(stream, 0, 2).value
    {
      ghost var w0 := W;
      var header := ReadCode(stream, 0, 2);
      if header.None? {
        return Failure(ReadFailed);
      }
      mode := header.value;
      var st := ResetCodebookExpand();
      var i: nat := R + 1;
      var first := ReadCode(stream, 1, W);
      if first.None? {
        return Failure(ReadFailed);
      }
      var codeword := first.value;
      if codeword == R {
        return Success([]);
      }
      if codeword >= |st| {
        return Failure(UnknownCode);
      }
      var val := st[codeword];
      assert val == [codeword as Byte];
      assert ExpandStream(stream, w0) == DecodeFrom(st, Initial(mode, W), val, stream, 2);
      r := DecodeCodewords(st, val, stream);
    }

    /**
     * The loop of expand once the first codeword `val` has been read from a fresh codebook list:
     * what it returns is the reference decoding of the codewords from position 2 on.
     */
    method DecodeCodewords(st0: Inverse, val0: Bytes, stream: seq<Codeword>) returns (r: Result<Bytes, DecodeError>)
      requires Valid() && InverseOk(st0, Initial(mode, W)) && |val0| > 0 && 2 <= |stream|
      modifies this
      ensures Valid() && mode == old(mode)
      ensures r == DecodeFrom(st0, Initial(mode, old(W)), val0, stream, 2)
    {
      var st, val, i: nat := st0, val0, R + 1;
      var inBits: nat, outBits: nat, monitor, lastIn: nat, lastOut: nat := 0, 0, false, 1, 1;
      var out: Bytes := [];
      var pos: nat := 2;
      ghost var goal := DecodeFrom(st0, Initial(mode, W), val0, stream, 2);
      PrependNothing(goal);
      while true
        invariant Valid() && mode == old(mode)
        invariant InverseOk(st, Policy(mode, W, i, inBits, outBits, monitor, lastIn, lastOut))
        invariant |val| > 0 && pos <= |stream|
        invariant goal
          == PrependBytes(out, DecodeFrom(st, Policy(mode, W, i, inBits, outBits, monitor, lastIn, lastOut), val, stream, pos))
        decreases |stream| - pos
      {
        ghost var p, d := Policy(mode, W, i, inBits, outBits, monitor, lastIn, lastOut), st;
        inBits := inBits + |val| * 8;
        outBits := outBits + W;
        assert Policy(mode, W, i, inBits, outBits, monitor, lastIn, lastOut) == Account(p, |val|);
        st, i, monitor, lastIn, lastOut := PrepareRead(st, i, inBits, outBits, monitor, lastIn, lastOut);
        ghost var p2 := Policy(mode, W, i, inBits, outBits, monitor, lastIn, lastOut);
        ghost var out0 := out;
        out := out + val;
        var next := ReadCode(stream, pos, W);
        if next.None? {
          ReadStops(d, p, val, stream, pos, out0, st, p2);
          r := Failure(ReadFailed);
          break;
        }
        var codeword := next.value;
        if codeword == R {
          SentinelStops(d, p, val, stream, pos, out0, st, p2);
          r := Success(out);
          break;
        }
        if i != codeword && codeword >= |st| {
          UnknownStops(d, p, val, stream, pos, out0, st, p2);
          r := Failure(UnknownCode);
          break;
        }
        var s;
        ghost var st2 := st;
        st, i, s := NextEntry(st, i, val, codeword, p2);
        DecodeGoesOn(d, p, val, stream, pos, out0, st2, p2, codeword, s, st, p2.(code := i));
        val := s;
        pos := pos + 1;
      }
    }

    /**
     * The string a codeword read in expand's loop stands for (the previous string plus its own
     * first byte when the codeword is the next code, else the list entry), and the list with the
     * previous string plus that byte appended while the table is not full.
     */
    method NextEntry(st: Inverse, i: nat, val: Bytes, codeword: nat, ghost p: Policy)
      returns (st': Inverse, i': nat, s: Bytes)
      requires Valid() && p.w == W && p.code == i && InverseOk(st, p) && |val| > 0
      requires codeword != Eof && (codeword == i || codeword < |st|)
      ensures s == if codeword == i then val + [val[0]] else st[codeword]
      ensures (st', p.(code := i')) == Append(st, p, val + [s[0]])
    {
      if i == codeword {
        s := val + [val[0]];
      } else {
        s := st[codeword];
      }
      st', i' := st, i;
      if i < L {
        st' := st + [val + [s[0]]];
        i' := i + 1;
      }
    }
  }

  /**
   * One pass of compress's loop: the code of the phrase, then what compress writes for the rest
   * of the input after the check and the new entry (or the sentinel, when the input is used up).
   */
  lemma CompressStep(st: Forward, p: Policy, rest: Bytes, t: nat, out: seq<Codeword>)
    requires Seeded(st) && |rest| > 0 && t == LongestPrefix(st, rest)
    ensures var e := EncodeFrom(st, p, rest, false);
      var c := Codeword(st[rest[..t]], p.w);
      var p1 := Account(p, t);
      var n := if t < |rest| then Next(st, p1, rest[..t + 1]) else (st, p1);
      var tail := EncodeFrom(n.0, n.1, rest[t..], false);
      (out + [c]) + tail.codes == out + e.codes && tail.last == e.last
  {
    if t == |rest| {
      LastPhrase(st, p, rest, out);
    } else {
      MorePhrases(st, p, rest, out);
    }
  }

  /** The last phrase: its code, then the sentinel at the width in effect, with no check between. */
  lemma LastPhrase(st: Forward, p: Policy, rest: Bytes, out: seq<Codeword>)
    requires Seeded(st) && |rest| > 0 && LongestPrefix(st, rest) == |rest|
    ensures var e := EncodeFrom(st, p, rest, false);
      var p1 := Account(p, |rest|);
      var tail := EncodeFrom(st, p1, rest[|rest|..], false);
      (out + [Codeword(st[rest[..|rest|]], p.w)]) + tail.codes == out + e.codes && tail.last == e.last
  {
    var c := Codeword(st[rest[..|rest|]], p.w);
    var p1 := Account(p, |rest|);
    assert rest[|rest|..] == [];
    var tail := EncodeFrom(st, p1, [], false);
    assert EncodeFrom(st, p, rest, false) == Encoded([c] + tail.codes, p1);
    assert (out + [c]) + tail.codes == out + ([c] + tail.codes);
  }

  /** A phrase with input after it: its code, then what compress writes after the new entry. */
  lemma MorePhrases(st: Forward, p: Policy, rest: Bytes, out: seq<Codeword>)
    requires Seeded(st) && |rest| > 0 && LongestPrefix(st, rest) < |rest|
    ensures var t := LongestPrefix(st, rest);
      var e := EncodeFrom(st, p, rest, false);
      var n := Next(st, Account(p, t), rest[..t + 1]);
      var tail := EncodeFrom(n.0, n.1, rest[t..], false);
      (out + [Codeword(st[rest[..t]], p.w)]) + tail.codes == out + e.codes && tail.last == e.last
  {
    var t := LongestPrefix(st, rest);
    var c := Codeword(st[rest[..t]], p.w);
    var n := Next(st, Account(p, t), rest[..t + 1]);
    var tail := EncodeFrom(n.0, n.1, rest[t..], false);
    assert EncodeFrom(st, p, rest, false) == Encoded([c] + tail.codes, tail.last);
    assert (out + [c]) + tail.codes == out + ([c] + tail.codes);
  }

  /** expand stops with a read failure when the next codeword cannot be read at the width p2.w. */
  lemma ReadStops(dst: Inverse, p: Policy, val: Bytes, stream: seq<Codeword>, pos: nat, out: Bytes,
                  dst2: Inverse, p2: Policy)
    requires InverseOk(dst, p) && |val| > 0 && (dst2, p2) == Prepare(dst, Account(p, |val|))
    requires ReadCode(stream, pos, p2.w).None?
    ensures PrependBytes(out, DecodeFrom(dst, p, val, stream, pos)) == Failure(ReadFailed)
  {
  }

  /** expand stops with everything written so far plus val when it reads the sentinel. */
  lemma SentinelStops(dst: Inverse, p: Policy, val: Bytes, stream: seq<Codeword>, pos: nat, out: Bytes,
                      dst2: Inverse, p2: Policy)
    requires InverseOk(dst, p) && |val| > 0 && (dst2, p2) == Prepare(dst, Account(p, |val|))
    requires ReadCode(stream, pos, p2.w) == Some(Eof)
    ensures PrependBytes(out, DecodeFrom(dst, p, val, stream, pos)) == Success(out + val)
  {
  }

  /** expand stops with an unknown code when the codeword is neither the next code nor listed. */
  lemma UnknownStops(dst: Inverse, p: Policy, val: Bytes, stream: seq<Codeword>, pos: nat, out: Bytes,
                     dst2: Inverse, p2: Policy)
    requires InverseOk(dst, p) && |val| > 0 && (dst2, p2) == Prepare(dst, Account(p, |val|))
    requires ReadCode(stream, pos, p2.w).Some? && ReadCode(stream, pos, p2.w).value != Eof
    requires ReadCode(stream, pos, p2.w).value != p2.code && ReadCode(stream, pos, p2.w).value >= |dst2|
    ensures PrependBytes(out, DecodeFrom(dst, p, val, stream, pos)) == Failure(UnknownCode)
  {
  }

  /**
   * Otherwise expand writes val and goes on from the string s the codeword stands for, with the
   * list after the append.
   */
  lemma DecodeGoesOn(dst: Inverse, p: Policy, val: Bytes, stream: seq<Codeword>, pos: nat, out: Bytes,
                     dst2: Inverse, p2: Policy, c: nat, s: Bytes, dst3: Inverse, p3: Policy)
    requires InverseOk(dst, p) && |val| > 0 && (dst2, p2) == Prepare(dst, Account(p, |val|))
    requires ReadCode(stream, pos, p2.w) == Some(c) && c != Eof && (c == p2.code || c < |dst2|)
    requires s == if c == p2.code then val + [val[0]] else dst2[c]
    requires (dst3, p3) == Append(dst2, p2, val + [s[0]])
    ensures InverseOk(dst3, p3) && |s| > 0
    ensures PrependBytes(out, DecodeFrom(dst, p, val, stream, pos))
      == PrependBytes(out + val, DecodeFrom(dst3, p3, s, stream, pos + 1))
  {
    match DecodeFrom(dst3, p3, s, stream, pos + 1)
    case Success(x) => assert out + (val + x) == (out + val) + x;
    case Failure(_) =>
  }

  lemma PrependNothing(r: Result<Bytes, DecodeError>)
    ensures PrependBytes([], r) == r
  {
    if r.Success? {
      assert [] + r.value == r.value;
    }
  }
}
