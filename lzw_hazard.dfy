/**
 * An input on which MyLZW's own expand cannot read back what its compress wrote: the 256 byte
 * values in increasing order, at the starting width 9.
 *
 * Every byte differs from the one before, so each phrase is one byte long and compress adds one
 * digram per codeword but the last: 255 entries, after which the next code is L = 512. Compress
 * skips the check after its last codeword and writes the sentinel at W = 9; expand runs that
 * check, widens to W = 10 and reads ten bits where only nine were written.
 */
module LzwHazard {
  import opened Wrappers
  import opened LzwSpec
  import opened LzwRoundTrip

  /** The bytes k, k + 1, ..., 255. */
  function Run(k: nat): (r: Bytes)
    requires k <= R
    ensures |r| == R - k && forall i :: 0 <= i < |r| ==> r[i] == k + i
  {
    seq(R - k, i requires 0 <= i < R - k => (k + i) as Byte)
  }

  /** The codebook holds the literals and digrams whose first byte is below k, and nothing else. */
  ghost predicate DigramsBelow(st: Forward, k: nat) {
    && Seeded(st)
    && forall key :: key in st && key !in Literals() ==> |key| == 2 && key[0] < k
  }

  /** No digram starting with byte k is known yet, so the phrase at Run(k) is the single byte k. */
  lemma RunPhrase(st: Forward, k: nat)
    requires k < R && DigramsBelow(st, k)
    ensures LongestPrefix(st, Run(k)) == 1
  {
    var q := Run(k);
    forall j | 1 < j <= |q| ensures q[..j] !in st {
      LiteralMember(q[..j]);
    }
    assert q[..1] == [q[0]];
    LongestPrefixUnique(st, q, 1);
  }

  /**
   * From Run(k) onwards compress adds one entry per codeword but the last, so it ends with the
   * next code at 257 + 255 = 512 = L and W still 9.
   */
  lemma {:induction false} RunLast(st: Forward, p: Policy, k: nat)
    requires k < R && DigramsBelow(st, k)
    requires p.w == MinCodeWidth && p.code == R + 1 + k
    ensures var last := EncodeFrom(st, p, Run(k), false).last;
      last.w == MinCodeWidth && last.code == Pow2(MinCodeWidth)
    decreases R - k
  {
    assert Pow2(MinCodeWidth) == 512;
    RunPhrase(st, k);
    if k < R - 1 {
      var rest := Run(k);
      var p1 := Account(p, 1);
      var n := Next(st, p1, rest[..2]);
      assert n == (st[rest[..2] := p.code], p1.(code := p.code + 1));
      assert rest[1..] == Run(k + 1);
      forall key | key in n.0 && key !in Literals() ensures |key| == 2 && key[0] < k + 1 {
      }
      RunLast(n.0, n.1, k + 1);
    }
  }

  /**
   * In every mode, compressing the 256 byte values in order at W = 9 ends in the hazard case, and
   * expand fails on the stream instead of returning the input.
   */
  lemma HazardWitness(mode: nat)
    requires mode < 4
    ensures Hazard(CompressLast(mode, MinCodeWidth, Run(0), false))
    ensures ExpandStream(CompressStream(mode, MinCodeWidth, Run(0), false), MinCodeWidth)
      == Failure(ReadFailed)
  {
    LiteralsSeeded();
    RunLast(Literals(), Initial(mode, MinCodeWidth), 0);
    RoundTrip(mode, MinCodeWidth, Run(0), false);
  }
}
