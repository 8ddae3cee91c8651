/**
 * What the reference coder of module LzwSpec guarantees: the codebooks of compress and expand
 * stay in lockstep, every codeword fits its width, the stream ends with the sentinel, and
 * expand(compress(B)) == B except when the last data codeword is written just as the next code
 * reaches L. Then expand runs its grow-or-reset check once more than compress did and reads the
 * sentinel at a different width. The corrected coder, which runs the check there too, round-trips
 * every input.
 */
module LzwRoundTrip {
  import opened Wrappers
  import opened LzwSpec

  // ---------------------------------------------------------------- the policy

  lemma CheckKeepsPolicyOk(p: Policy)
    requires PolicyOk(p)
    ensures PolicyOk(Check(p).0)
    ensures Check(p).0.mode == p.mode && Check(p).0.inBits == p.inBits
    ensures Check(p).0.outBits == p.outBits
    ensures Check(p).1 ==> Check(p).0.code == R + 1 && Check(p).0.w == MinCodeWidth
    ensures !Check(p).1 ==> Check(p).0.code == p.code && Check(p).0.w >= p.w
  {
    if p.code >= Pow2(p.w) && p.w + 1 <= MaxCodeWidth {
      Pow2Monotonic(p.w, p.w + 1);
    }
    Pow2Monotonic(MinCodeWidth, p.w);
  }

  /**
   * The width only changes when the next code has reached L: it grows by one below 16 and falls
   * back to 9 when the table is cleared.
   */
  lemma CheckWidth(p: Policy)
    requires PolicyOk(p)
    ensures Check(p).0.w != p.w <==> p.code == Pow2(p.w) && (p.w < MaxCodeWidth || Check(p).1)
    ensures p.w < MaxCodeWidth && Check(p).0.w != p.w ==> Check(p).0.w == p.w + 1
  {
    Pow2Monotonic(MinCodeWidth, p.w);
  }

  /**
   * A full table at W = 16: mode 1 clears it and restarts at code 257 and W = 9; mode 2 records
   * the ratio the first time and clears only after a degradation of more than 10%, switching the
   * monitor off; every other mode (header value 3 included) adds no entry and keeps W = 16.
   */
  lemma CheckFullTable(p: Policy)
    requires PolicyOk(p) && p.w == MaxCodeWidth && p.code == Pow2(MaxCodeWidth)
    ensures p.mode == 1 ==> Check(p) == (p.(code := R + 1, w := MinCodeWidth), true)
    ensures p.mode == 2 && !p.monitor ==>
      Check(p) == (p.(monitor := true, lastIn := p.inBits, lastOut := p.outBits), false)
    ensures p.mode == 2 && p.monitor ==>
      Check(p).1 == Degraded(p.lastIn, p.lastOut, p.inBits, p.outBits) &&
      (Check(p).1 ==> Check(p).0 == p.(monitor := false, code := R + 1, w := MinCodeWidth))
    ensures p.mode != 1 && p.mode != 2 ==> Check(p) == (p, false)
    ensures !Check(p).1 ==> Check(p).0.code == Pow2(Check(p).0.w)
  {
  }

  // ---------------------------------------------------------------- the codebooks

  /** The forward codebook holds the literals, non-empty keys, and only codes below the next one. */
  ghost predicate ForwardOk(st: Forward, p: Policy) {
    && PolicyOk(p)
    && Seeded(st)
    && (forall k :: k in st ==> k != [] && st[k] < p.code && st[k] != Eof)
  }

  /** Entry by entry, the inverse codebook undoes the forward one. */
  ghost predicate Corresponds(st: Forward, dst: Inverse, p: Policy) {
    && ForwardOk(st, p)
    && InverseOk(dst, p)
    && (forall k :: k in st ==> dst[st[k]] == k)
  }

  lemma InitialCorresponds(p: Policy)
    requires PolicyOk(p) && p.code == R + 1
    ensures Corresponds(Literals(), InverseLiterals(), p)
  {
    LiteralsSeeded();
    forall k | k in Literals() ensures k != [] && InverseLiterals()[Literals()[k]] == k {
      LiteralMember(k);
      assert k == [k[0]];
    }
  }

  /** Clearing at the check, adding after it: the two codebooks stay in step. */
  lemma CheckKeepsCorrespondence(st: Forward, dst: Inverse, p: Policy)
    requires Corresponds(st, dst, p)
    ensures var (p2, cleared) := Check(p);
      Corresponds(if cleared then Literals() else st, if cleared then InverseLiterals() else dst, p2)
  {
    CheckKeepsPolicyOk(p);
    var (p2, cleared) := Check(p);
    if cleared {
      InitialCorresponds(p2);
    }
  }

  /** Between two data codewords compress keeps its codebook well formed. */
  lemma NextKeepsForwardOk(st: Forward, p1: Policy, key: Bytes)
    requires ForwardOk(st, p1) && |key| > 0
    ensures ForwardOk(Next(st, p1, key).0, Next(st, p1, key).1)
    ensures Next(st, p1, key).1.w == Check(p1).0.w
  {
    CheckKeepsPolicyOk(p1);
    if Check(p1).1 {
      InitialCorresponds(Check(p1).0);
    }
  }

  /**
   * Between two data codewords the encoder's check and new entry and the decoder's check and
   * appended entry leave the two codebooks in step. The key is a longest prefix plus one byte, so
   * it is new, and at least two bytes long, so it is new after a clear as well.
   */
  lemma NextKeepsCorrespondence(st: Forward, dst: Inverse, p1: Policy, key: Bytes)
    requires Corresponds(st, dst, p1) && key !in st && |key| >= 2
    ensures var (dst2, p2) := Prepare(dst, p1);
      && p2 == Check(p1).0
      && Append(dst2, p2, key).1 == Next(st, p1, key).1
      && Corresponds(Next(st, p1, key).0, Append(dst2, p2, key).0, Next(st, p1, key).1)
      && Next(st, p1, key).1.w == p2.w
      && Next(st, p1, key).1.code == (if p2.code < Pow2(p2.w) then p2.code + 1 else p2.code)
      && (p2.code < Pow2(p2.w) ==> Append(dst2, p2, key).0 == dst2 + [key])
      && (p2.code >= Pow2(p2.w) ==> Append(dst2, p2, key).0 == dst2)
  {
    CheckKeepsCorrespondence(st, dst, p1);
    var (p2, cleared) := Check(p1);
    LiteralsSeeded();
    var st2 := if cleared then Literals() else st;
    var dst2 := if cleared then InverseLiterals() else dst;
    LiteralMember(key);
    assert key !in st2;
    assert Prepare(dst, p1) == (dst2, p2);
    assert Next(st, p1, key) == Add(st2, p2, key);
    AddKeepsCorrespondence(st2, dst2, p2, key);
  }

  /** A new entry at the next code in both codebooks keeps them in step. */
  lemma AddKeepsCorrespondence(st: Forward, dst: Inverse, p: Policy, key: Bytes)
    requires Corresponds(st, dst, p) && key !in st && |key| > 0
    ensures Append(dst, p, key).1 == Add(st, p, key).1
    ensures Corresponds(Add(st, p, key).0, Append(dst, p, key).0, Add(st, p, key).1)
    ensures Add(st, p, key).1.w == p.w
    ensures Add(st, p, key).1.code == (if p.code < Pow2(p.w) then p.code + 1 else p.code)
    ensures p.code < Pow2(p.w) ==> Append(dst, p, key).0 == dst + [key]
    ensures p.code >= Pow2(p.w) ==> Append(dst, p, key).0 == dst
  {
    assert p.code >= R + 1;
  }

  // ---------------------------------------------------------------- shape of the stream

  /** A codeword value fits its width, and the width is one of 9..16. */
  ghost predicate Fits(c: Codeword) {
    MinCodeWidth <= c.width <= MaxCodeWidth && c.value < Pow2(c.width)
  }

  /**
   * The data codewords fit their widths and none is the sentinel; the stream ends with the
   * sentinel at width `w`.
   */
  ghost predicate Shaped(codes: seq<Codeword>, w: nat) {
    && |codes| >= 1
    && codes[|codes| - 1] == Codeword(Eof, w)
    && (forall i :: 0 <= i < |codes| ==> Fits(codes[i]))
    && (forall i :: 0 <= i < |codes| - 1 ==> codes[i].value != Eof)
  }

  lemma ConsShaped(c: Codeword, codes: seq<Codeword>, w: nat)
    requires Fits(c) && c.value != Eof && Shaped(codes, w)
    ensures Shaped([c] + codes, w)
  {
  }

  lemma ShapedEnd(c: Codeword, w: nat)
    requires Fits(c) && c.value != Eof && Fits(Codeword(Eof, w))
    ensures Shaped([Codeword(Eof, w)], w) && Shaped([c, Codeword(Eof, w)], w)
  {
  }

  /** Every codeword is written at width `w`. */
  ghost predicate AtWidth(codes: seq<Codeword>, w: nat) {
    forall i :: 0 <= i < |codes| ==> codes[i].width == w
  }

  lemma ConsAtWidth(c: Codeword, codes: seq<Codeword>, w: nat)
    requires c.width == w && AtWidth(codes, w)
    ensures AtWidth([c] + codes, w) && AtWidth([c, Codeword(Eof, w)], w)
    ensures AtWidth([Codeword(Eof, w)], w)
  {
  }

  /**
   * Every codeword compress writes fits its width in [9, 16], no data codeword is the sentinel,
   * and the stream ends with the sentinel at the final width.
   */
  lemma {:induction false} EncodeShape(st: Forward, p: Policy, rest: Bytes, checkLast: bool)
    requires ForwardOk(st, p)
    ensures var e := EncodeFrom(st, p, rest, checkLast);
      Shaped(e.codes, e.last.w) && PolicyOk(e.last)
    decreases |rest|, 1
  {
    if |rest| == 0 || LongestPrefix(st, rest) == |rest| {
      LastShape(st, p, rest, checkLast);
    } else {
      StepShape(st, p, rest, checkLast);
    }
  }

  /** The last step of compress: at most one data codeword, then the sentinel. */
  lemma LastShape(st: Forward, p: Policy, rest: Bytes, checkLast: bool)
    requires ForwardOk(st, p) && (|rest| == 0 || LongestPrefix(st, rest) == |rest|)
    ensures var e := EncodeFrom(st, p, rest, checkLast);
      Shaped(e.codes, e.last.w) && PolicyOk(e.last)
  {
    var e := EncodeFrom(st, p, rest, checkLast);
    if |rest| == 0 {
      SentinelFits(p);
      ShapedEnd(Codeword(0, p.w), p.w);
      assert e == Encoded([Codeword(Eof, p.w)], p);
    } else {
      var t := LongestPrefix(st, rest);
      var p1 := Account(p, t);
      var c := Codeword(st[rest[..t]], p.w);
      FirstCodeFits(st, p, rest);
      CheckKeepsPolicyOk(p1);
      var pe := if checkLast then Check(p1).0 else p1;
      SentinelFits(pe);
      ShapedEnd(c, pe.w);
      assert e == Encoded([c, Codeword(Eof, pe.w)], pe);
    }
  }

  /** A step that does not end the input puts one fitting data codeword before a shaped tail. */
  lemma {:induction false} StepShape(st: Forward, p: Policy, rest: Bytes, checkLast: bool)
    requires ForwardOk(st, p) && |rest| > 0 && LongestPrefix(st, rest) < |rest|
    ensures var e := EncodeFrom(st, p, rest, checkLast);
      Shaped(e.codes, e.last.w) && PolicyOk(e.last)
    decreases |rest|, 0
  {
    var t := LongestPrefix(st, rest);
    var c := Codeword(st[rest[..t]], p.w);
    NextKeepsForwardOk(st, Account(p, t), rest[..t + 1]);
    var n := Next(st, Account(p, t), rest[..t + 1]);
    var tail := EncodeFrom(n.0, n.1, rest[t..], checkLast);
    EncodeShape(n.0, n.1, rest[t..], checkLast);
    FirstCodeFits(st, p, rest);
    ConsShaped(c, tail.codes, tail.last.w);
    assert EncodeFrom(st, p, rest, checkLast) == Encoded([c] + tail.codes, tail.last);
  }

  /** The sentinel fits every width a sound policy can have. */
  lemma SentinelFits(p: Policy)
    requires PolicyOk(p)
    ensures Fits(Codeword(Eof, p.w))
  {
    Pow2Monotonic(MinCodeWidth, p.w);
    assert Pow2(MinCodeWidth) == 512;
  }

  /** The code of the longest known prefix fits the current width and is not the sentinel. */
  lemma FirstCodeFits(st: Forward, p: Policy, rest: Bytes)
    requires ForwardOk(st, p) && |rest| > 0
    ensures var c := Codeword(st[rest[..LongestPrefix(st, rest)]], p.w);
      Fits(c) && c.value != Eof
  {
    var t := LongestPrefix(st, rest);
    assert rest[..t] in st;
  }

  /**
   * Each step of compress consumes at least one byte, so it writes at most |rest| data
   * codewords, and none for empty input.
   */
  lemma {:induction false} EncodeLength(st: Forward, p: Policy, rest: Bytes, checkLast: bool)
    requires Seeded(st)
    ensures var e := EncodeFrom(st, p, rest, checkLast);
      |e.codes| <= |rest| + 1 && (|rest| == 0 <==> |e.codes| == 1)
    decreases |rest|
  {
    if |rest| > 0 {
      var t := LongestPrefix(st, rest);
      if t < |rest| {
        var n := Next(st, Account(p, t), rest[..t + 1]);
        EncodeLength(n.0, n.1, rest[t..], checkLast);
      }
    }
  }

  /**
   * Once the table is full at W = 16 in a mode other than 1 and 2, compress adds no entry and
   * keeps W = 16 to the end: the next code stays at L = 2^16.
   */
  lemma {:induction false} StaticModeFreezes(st: Forward, p: Policy, rest: Bytes, checkLast: bool)
    requires Seeded(st) && p.mode != 1 && p.mode != 2
    requires p.w == MaxCodeWidth && p.code == Pow2(MaxCodeWidth)
    ensures var e := EncodeFrom(st, p, rest, checkLast);
      e.last.w == MaxCodeWidth && e.last.code == Pow2(MaxCodeWidth) && AtWidth(e.codes, MaxCodeWidth)
    decreases |rest|
  {
    var c := Codeword(0, MaxCodeWidth);
    if |rest| > 0 {
      var t := LongestPrefix(st, rest);
      c := Codeword(st[rest[..t]], p.w);
      if t < |rest| {
        var n := Next(st, Account(p, t), rest[..t + 1]);
        assert n == (st, Account(p, t));
        StaticModeFreezes(n.0, n.1, rest[t..], checkLast);
        ConsAtWidth(c, EncodeFrom(n.0, n.1, rest[t..], checkLast).codes, MaxCodeWidth);
        return;
      }
    }
    ConsAtWidth(c, [], MaxCodeWidth);
  }

  // ---------------------------------------------------------------- the round trip

  /**
   * expand reads the sentinel at the width its own last check leaves; compress wrote it at the
   * width before that check. They differ exactly when this check changes the width.
   */
  ghost predicate Hazard(last: Policy) {
    Check(last).0.w != last.w
  }

  /** The last code: what expand reads after `val` is the sentinel, at the width compress used. */
  lemma LastStep(dst: Inverse, p: Policy, val: Bytes, stream: seq<Codeword>, pos: nat,
                 checkLast: bool)
    requires InverseOk(dst, p) && |val| > 0 && PolicyOk(Account(p, |val|))
    requires pos < |stream|
    requires var p1 := Account(p, |val|);
      stream[pos] == Codeword(Eof, (if checkLast then Check(p1).0 else p1).w)
    ensures DecodeFrom(dst, p, val, stream, pos)
      == if !checkLast && Hazard(Account(p, |val|)) then Failure(ReadFailed) else Success(val)
  {
    var p1 := Account(p, |val|);
    CheckKeepsPolicyOk(p1);
    var p2 := Check(p1).0;
    Pow2Monotonic(MinCodeWidth, p2.w);
    assert Pow2(MinCodeWidth) == 512;
    assert Prepare(dst, p1).1 == p2;
    if checkLast || p1.w == p2.w {
      assert ReadCode(stream, pos, p2.w) == Some(Eof);
    } else {
      assert ReadCode(stream, pos, p2.w) == None;
    }
  }

  /**
   * Decoding from the point where compress has just written the code of the longest prefix s of
   * `rest` (the decoder holding s as `val`) yields `rest`, unless the sentinel width differs.
   */
  lemma {:induction false} RoundTripFrom(st: Forward, dst: Inverse, p: Policy, rest: Bytes,
                                         checkLast: bool, pre: seq<Codeword>)
    requires Corresponds(st, dst, p) && |rest| > 0
    ensures var e := EncodeFrom(st, p, rest, checkLast);
      DecodeFrom(dst, p, rest[..LongestPrefix(st, rest)], pre + e.codes, |pre| + 1)
        == if !checkLast && Hazard(e.last) then Failure(ReadFailed) else Success(rest)
    decreases |rest|, 1
  {
    var e := EncodeFrom(st, p, rest, checkLast);
    var t := LongestPrefix(st, rest);
    var s := rest[..t];
    var c := Codeword(st[s], p.w);
    var p1 := Account(p, t);
    var stream := pre + e.codes;
    if t == |rest| {
      var pe := if checkLast then Check(p1).0 else p1;
      assert e.codes == [c, Codeword(Eof, pe.w)] && e.last == pe;
      assert stream[|pre| + 1] == Codeword(Eof, pe.w);
      LastStep(dst, p, s, stream, |pre| + 1, checkLast);
      assert s == rest;
    } else {
      RoundTripStep(st, dst, p, rest, checkLast, pre);
    }
  }

  /** The first codeword after `val` when compress goes on: the code of the next phrase. */
  lemma NextCodeword(st: Forward, p: Policy, rest: Bytes, checkLast: bool)
    requires Seeded(st) && |rest| > 0 && LongestPrefix(st, rest) < |rest|
    ensures var t := LongestPrefix(st, rest);
      var n := Next(st, Account(p, t), rest[..t + 1]);
      var tail := EncodeFrom(n.0, n.1, rest[t..], checkLast);
      && EncodeFrom(st, p, rest, checkLast) == Encoded([Codeword(st[rest[..t]], p.w)] + tail.codes, tail.last)
      && tail.codes[0] == Codeword(n.0[rest[t..][..LongestPrefix(n.0, rest[t..])]], n.1.w)
  {
  }

  /** One pass of expand's loop that reads a data codeword `c`. */
  lemma DecodeStep(dst: Inverse, p: Policy, val: Bytes, stream: seq<Codeword>, pos: nat, c: nat)
    requires InverseOk(dst, p) && |val| > 0
    requires var (dst2, p2) := Prepare(dst, Account(p, |val|));
      ReadCode(stream, pos, p2.w) == Some(c) && c != Eof && (c == p2.code || c < |dst2|)
    ensures var (dst2, p2) := Prepare(dst, Account(p, |val|));
      var s := if c == p2.code then val + [val[0]] else dst2[c];
      var (dst3, p3) := Append(dst2, p2, val + [s[0]]);
      DecodeFrom(dst, p, val, stream, pos) == PrependBytes(val, DecodeFrom(dst3, p3, s, stream, pos + 1))
  {
  }

  /**
   * The decoder's view of the next codeword c' = st3[s']: a known code below L that is not the
   * sentinel, and either the code just added, for which val + val[0] is the string, or an
   * entry of its list. Either way it decodes to s', and the entry it appends is the encoder's.
   */
  lemma Resolve(st3: Forward, dst3: Inverse, p3: Policy, dst2: Inverse, p2: Policy,
                s: Bytes, s': Bytes)
    requires Corresponds(st3, dst3, p3) && s' in st3 && |s| > 0 && InverseOk(dst2, p2)
    requires (dst3, p3) == Append(dst2, p2, s + [s'[0]])
    ensures var c' := st3[s'];
      c' != Eof && c' < Pow2(p2.w) && (c' == p2.code || c' < |dst2|)
    ensures var sd := if st3[s'] == p2.code then s + [s[0]] else dst2[st3[s']];
      sd == s' && Append(dst2, p2, s + [sd[0]]) == (dst3, p3)
  {
    var c' := st3[s'];
    if c' == p2.code {
      assert dst3[c'] == s + [s'[0]] == s';
      assert s'[0] == s[0];
    } else {
      assert dst3[c'] == dst2[c'];
    }
  }

  lemma KeyIsPhrasePlusNext(rest: Bytes, t: nat, t': nat)
    requires 0 < t < |rest| && 1 <= t' <= |rest| - t
    ensures rest[..t + 1] == rest[..t] + [rest[t..][..t'][0]]
  {
  }

  /** When the codebooks agree after the step, expand decodes the next codeword to s'. */
  lemma DecoderSide(dst: Inverse, p: Policy, s: Bytes, stream: seq<Codeword>, pos: nat,
                    st3: Forward, dst3: Inverse, p3: Policy, s': Bytes)
    requires InverseOk(dst, p) && |s| > 0 && Corresponds(st3, dst3, p3) && s' in st3
    requires var (dst2, p2) := Prepare(dst, Account(p, |s|));
      (dst3, p3) == Append(dst2, p2, s + [s'[0]])
    requires pos < |stream| && stream[pos] == Codeword(st3[s'], p3.w)
    ensures DecodeFrom(dst, p, s, stream, pos)
      == PrependBytes(s, DecodeFrom(dst3, p3, s', stream, pos + 1))
  {
    var (dst2, p2) := Prepare(dst, Account(p, |s|));
    Resolve(st3, dst3, p3, dst2, p2, s, s');
    DecodeStep(dst, p, s, stream, pos, st3[s']);
  }

  /**
   * Compress's side of a step that does not end the input: the entry it adds is the phrase
   * followed by the first byte of the next phrase, and the codebooks still agree.
   */
  lemma {:induction false} StepEncode(st: Forward, dst: Inverse, p: Policy, rest: Bytes,
                                      checkLast: bool)
    returns (st3: Forward, dst3: Inverse, p3: Policy)
    requires Corresponds(st, dst, p) && |rest| > 0 && LongestPrefix(st, rest) < |rest|
    ensures Corresponds(st3, dst3, p3)
    ensures var t := LongestPrefix(st, rest);
      var tail := EncodeFrom(st3, p3, rest[t..], checkLast);
      && EncodeFrom(st, p, rest, checkLast) == Encoded([Codeword(st[rest[..t]], p.w)] + tail.codes, tail.last)
      && |tail.codes| > 0
      && tail.codes[0] == Codeword(st3[rest[t..][..LongestPrefix(st3, rest[t..])]], p3.w)
      && rest[t..][..LongestPrefix(st3, rest[t..])] in st3
    ensures var t := LongestPrefix(st, rest);
      var s' := rest[t..][..LongestPrefix(st3, rest[t..])];
      var (dst2, p2) := Prepare(dst, Account(p, t));
      (dst3, p3) == Append(dst2, p2, rest[..t] + [s'[0]])
  {
    var t := LongestPrefix(st, rest);
    st3, dst3, p3 := StepCodebooks(st, dst, p, rest);
    NextCodeword(st, p, rest, checkLast);
    KeyIsPhrasePlusNext(rest, t, LongestPrefix(st3, rest[t..]));
  }

  /** Both codebooks after a step that does not end the input, still in agreement. */
  lemma StepCodebooks(st: Forward, dst: Inverse, p: Policy, rest: Bytes)
    returns (st3: Forward, dst3: Inverse, p3: Policy)
    requires Corresponds(st, dst, p) && |rest| > 0 && LongestPrefix(st, rest) < |rest|
    ensures Corresponds(st3, dst3, p3)
    ensures var t := LongestPrefix(st, rest);
      (st3, p3) == Next(st, Account(p, t), rest[..t + 1])
    ensures var t := LongestPrefix(st, rest);
      var (dst2, p2) := Prepare(dst, Account(p, t));
      (dst3, p3) == Append(dst2, p2, rest[..t + 1])
  {
    var t := LongestPrefix(st, rest);
    var p1 := Account(p, t);
    NextKeepsCorrespondence(st, dst, p1, rest[..t + 1]);
    st3, p3 := Next(st, p1, rest[..t + 1]).0, Next(st, p1, rest[..t + 1]).1;
    dst3 := Append(Prepare(dst, p1).0, Prepare(dst, p1).1, rest[..t + 1]).0;
  }

  lemma StreamAt(pre: seq<Codeword>, c: Codeword, tail: seq<Codeword>)
    requires |tail| > 0
    ensures (pre + ([c] + tail))[|pre| + 1] == tail[0] && |pre| + 1 < |pre + ([c] + tail)|
  {
  }

  /**
   * One data codeword followed by more: compress adds the entry rest[..t + 1] and expand, when it
   * reads the next codeword, appends the same string at the same code.
   */
  lemma {:induction false} StepFacts(st: Forward, dst: Inverse, p: Policy, rest: Bytes,
                                     checkLast: bool, pre: seq<Codeword>)
    returns (st3: Forward, dst3: Inverse, p3: Policy)
    requires Corresponds(st, dst, p) && |rest| > 0 && LongestPrefix(st, rest) < |rest|
    ensures Corresponds(st3, dst3, p3)
    ensures var t := LongestPrefix(st, rest);
      var tail := EncodeFrom(st3, p3, rest[t..], checkLast);
      EncodeFrom(st, p, rest, checkLast) == Encoded([Codeword(st[rest[..t]], p.w)] + tail.codes, tail.last)
    ensures var t := LongestPrefix(st, rest);
      var stream := pre + EncodeFrom(st, p, rest, checkLast).codes;
      DecodeFrom(dst, p, rest[..t], stream, |pre| + 1)
        == PrependBytes(rest[..t], DecodeFrom(dst3, p3, rest[t..][..LongestPrefix(st3, rest[t..])],
                                              stream, |pre| + 2))
  {
    var t := LongestPrefix(st, rest);
    st3, dst3, p3 := StepEncode(st, dst, p, rest, checkLast);
    var tail := EncodeFrom(st3, p3, rest[t..], checkLast);
    StreamAt(pre, Codeword(st[rest[..t]], p.w), tail.codes);
    DecoderSide(dst, p, rest[..t], pre + EncodeFrom(st, p, rest, checkLast).codes, |pre| + 1,
                st3, dst3, p3, rest[t..][..LongestPrefix(st3, rest[t..])]);
  }

  lemma Regroup(pre: seq<Codeword>, c: Codeword, tail: seq<Codeword>)
    ensures pre + ([c] + tail) == (pre + [c]) + tail && |pre + [c]| == |pre| + 1
  {
  }

  lemma SplitAt(rest: Bytes, t: nat)
    requires t <= |rest|
    ensures rest[..t] + rest[t..] == rest
  {
  }

  lemma PrependOutcome(s: Bytes, rest': Bytes, hazard: bool)
    ensures PrependBytes(s, if hazard then Failure(ReadFailed) else Success(rest'))
      == if hazard then Failure(ReadFailed) else Success(s + rest')
  {
  }

  /** One data codeword followed by more: the decoder rebuilds the same entry and goes on. */
  lemma {:induction false} RoundTripStep(st: Forward, dst: Inverse, p: Policy, rest: Bytes,
                                         checkLast: bool, pre: seq<Codeword>)
    requires Corresponds(st, dst, p) && |rest| > 0 && LongestPrefix(st, rest) < |rest|
    ensures var e := EncodeFrom(st, p, rest, checkLast);
      DecodeFrom(dst, p, rest[..LongestPrefix(st, rest)], pre + e.codes, |pre| + 1)
        == if !checkLast && Hazard(e.last) then Failure(ReadFailed) else Success(rest)
    decreases |rest|, 0
  {
    var t := LongestPrefix(st, rest);
    var s := rest[..t];
    var c := Codeword(st[s], p.w);
    var rest' := rest[t..];
    var st3, dst3, p3 := StepFacts(st, dst, p, rest, checkLast, pre);
    var e := EncodeFrom(st, p, rest, checkLast);
    var tail := EncodeFrom(st3, p3, rest', checkLast);
    Regroup(pre, c, tail.codes);
    RoundTripFrom(st3, dst3, p3, rest', checkLast, pre + [c]);
    PrependOutcome(s, rest', !checkLast && Hazard(tail.last));
    SplitAt(rest, t);
  }

  /** The header and the first data codeword of a non-empty input, a literal at width `w`. */
  lemma CompressOpening(mode: nat, w: nat, input: Bytes, checkLast: bool)
    requires mode < 4 && MinCodeWidth <= w <= MaxCodeWidth && |input| > 0
    ensures var stream := CompressStream(mode, w, input, checkLast);
      && LongestPrefix(Literals(), input) == 1
      && ReadCode(stream, 0, 2) == Some(mode)
      && ReadCode(stream, 1, w) == Some(input[0])
      && stream == [Codeword(mode, 2)] + EncodeFrom(Literals(), Initial(mode, w), input, checkLast).codes
  {
    LiteralsSeeded();
    Pow2Monotonic(MinCodeWidth, w);
    assert Pow2(MinCodeWidth) == 512;
    assert Pow2(2) == 4;
    forall j | 1 < j <= |input| ensures input[..j] !in Literals() {
      LiteralMember(input[..j]);
    }
    assert input[..1] == [input[0]];
    LongestPrefixUnique(Literals(), input, 1);
  }

  /** Empty input: the header and the sentinel, which expand turns back into nothing. */
  lemma RoundTripEmpty(mode: nat, w: nat, checkLast: bool)
    requires mode < 4 && MinCodeWidth <= w <= MaxCodeWidth
    ensures CompressStream(mode, w, [], checkLast) == [Codeword(mode, 2), Codeword(Eof, w)]
    ensures ExpandStream(CompressStream(mode, w, [], checkLast), w) == Success([])
    ensures !Hazard(CompressLast(mode, w, [], checkLast))
  {
    Pow2Monotonic(MinCodeWidth, w);
    assert Pow2(MinCodeWidth) == 512;
    assert Pow2(2) == 4;
  }

  /**
   * expand(compress(B)) == B, starting both at the same width, except in the hazard case,
   * where expand fails to read the sentinel. The corrected coder has no hazard case.
   */
  lemma RoundTrip(mode: nat, w: nat, input: Bytes, checkLast: bool)
    requires mode < 4 && MinCodeWidth <= w <= MaxCodeWidth
    ensures ExpandStream(CompressStream(mode, w, input, checkLast), w)
      == if !checkLast && Hazard(CompressLast(mode, w, input, checkLast))
         then Failure(ReadFailed) else Success(input)
  {
    if |input| == 0 {
      RoundTripEmpty(mode, w, checkLast);
    } else {
      CompressOpening(mode, w, input, checkLast);
      var stream := CompressStream(mode, w, input, checkLast);
      assert ExpandStream(stream, w)
        == DecodeFrom(InverseLiterals(), Initial(mode, w), [input[0] as Byte], stream, 2);
      assert input[..1] == [input[0] as Byte];
      Pow2Monotonic(MinCodeWidth, w);
      InitialCorresponds(Initial(mode, w));
      RoundTripFrom(Literals(), InverseLiterals(), Initial(mode, w), input, checkLast,
                    [Codeword(mode, 2)]);
    }
  }

  /** The corrected coder (check also after the last data codeword) round-trips every input. */
  lemma CorrectedRoundTrip(mode: nat, input: Bytes)
    requires mode < 4
    ensures ExpandStream(CompressStream(mode, MinCodeWidth, input, true), MinCodeWidth)
      == Success(input)
  {
    RoundTrip(mode, MinCodeWidth, input, true);
  }
}
