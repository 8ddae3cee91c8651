/**
 * The password validator of the password checker. A password is valid when it has five
 * characters of the alphabet, 1-3 letters, 1-2 digits and 1-2 symbols, and no dictionary word
 * can be read in it. Reading a password substitutes in place the digits that stand for letters
 * right after a letter, records break points (symbols other than '$', and other digits after a
 * letter) and the positions of '1', which may stand for 'i' or 'l'. The candidate words are the
 * substrings between break points; the dictionary is a set of words.
 */
module PasswordCheck {
  import opened Wrappers
  import opened Alphabets
  import opened DlbTries

  /** The only password length accepted. */
  const Length: nat := 5

  /** The digits that stand for a letter: '7', '4', '0', '3' for 't', 'a', 'o', 'e'. */
  function Leet(c: char): (r: Option<char>)
    ensures r.Some? ==> InAlphabet(r.value) && ToIndex(r.value) <= 25
    ensures r.Some? <==> c == '7' || c == '4' || c == '0' || c == '3'
  {
    if c == '7' then Some('t')
    else if c == '4' then Some('a')
    else if c == '0' then Some('o')
    else if c == '3' then Some('e')
    else None
  }

  /** Whether a character read with the given afterLetter is a break point. */
  predicate BreakChar(c: char, afterLetter: bool)
    requires InAlphabet(c)
  {
    (36 <= ToIndex(c) && c != '$') ||
    (26 <= ToIndex(c) <= 35 && afterLetter && Leet(c).None? && c != '1')
  }

  /** Whether a character read with the given afterLetter is a '1' that may stand for a letter. */
  predicate OneChar(c: char, afterLetter: bool) {
    c == '1' && afterLetter
  }

  /** The character a digit read right after a letter stands for; any other character itself. */
  function SubChar(c: char, afterLetter: bool): char
    requires InAlphabet(c)
  {
    if 26 <= ToIndex(c) <= 35 && afterLetter && Leet(c).Some? then Leet(c).value else c
  }

  /** afterLetter once `c` is read: true after a letter, kept by a digit standing for a letter. */
  predicate NextAfterLetter(c: char, afterLetter: bool)
    requires InAlphabet(c)
  {
    if ToIndex(c) <= 25 then true
    else if ToIndex(c) <= 35 then afterLetter && (Leet(c).Some? || c == '1')
    else false
  }

  /** The counting loop's variables: counts, afterLetter, both queues and the password. */
  datatype Scan = Scan(letters: nat, digits: nat, symbols: nat, afterLetter: bool,
                       breakPts: seq<int>, oneIndex: seq<int>, password: string)

  /**
   * One iteration of the counting loop, at index i, variable by variable: the class counts, the
   * substitution, afterLetter and the two queues.
   */
  function Step(s: Scan, i: nat): Scan
    requires i < |s.password| && InAlphabet(s.password[i])
  {
    var c := s.password[i];
    Scan(s.letters + (if ToIndex(c) <= 25 then 1 else 0),
         s.digits + (if 26 <= ToIndex(c) <= 35 then 1 else 0),
         s.symbols + (if 36 <= ToIndex(c) then 1 else 0),
         NextAfterLetter(c, s.afterLetter),
         s.breakPts + (if BreakChar(c, s.afterLetter) then [i] else []),
         s.oneIndex + (if OneChar(c, s.afterLetter) then [i] else []),
         s.password[i := SubChar(c, s.afterLetter)])
  }

  /** The loop's state after the first n iterations over `pw`. */
  function ScanTo(pw: string, n: nat): (r: Scan)
    requires ValidKey(pw) && n <= |pw|
    ensures |r.password| == |pw| && ValidKey(r.password)
    ensures forall j :: n <= j < |pw| ==> r.password[j] == pw[j]
    ensures InRange(r.breakPts, |pw| + 1) && InRange(r.oneIndex, |pw|)
  {
    if n == 0 then Scan(0, 0, 0, true, [], [], pw)
    else
      var s := ScanTo(pw, n - 1);
      var r := Step(s, n - 1);
      assert forall j :: 0 <= j < |pw| ==> InAlphabet(r.password[j]) by {
        forall j | 0 <= j < |pw|
          ensures InAlphabet(r.password[j])
        {
          assert InAlphabet(s.password[j]);
        }
      }
      AppendInRange(s.breakPts, BreakChar(s.password[n - 1], s.afterLetter), n - 1, |pw| + 1);
      AppendInRange(s.oneIndex, OneChar(s.password[n - 1], s.afterLetter), n - 1, |pw|);
      r
  }

  /** Appending an index of a string of length m keeps a sequence of such indices. */
  lemma AppendInRange(s: seq<int>, add: bool, i: int, m: int)
    requires InRange(s, m) && 0 <= i < m
    ensures InRange(s + (if add then [i] else []), m)
  {
  }

  /** The number of characters of pw[..n] whose alphabet index is in lo..hi. */
  function CountIn(pw: string, n: nat, lo: nat, hi: nat): (r: nat)
    requires ValidKey(pw) && n <= |pw|
    ensures r <= n
  {
    if n == 0 then 0
    else CountIn(pw, n - 1, lo, hi) + (if lo <= ToIndex(pw[n - 1]) <= hi then 1 else 0)
  }

  /** Whether index j is read right after a letter, or after digits standing for letters that follow one. */
  predicate AfterLetter(pw: string, j: nat)
    requires ValidKey(pw) && j <= |pw|
  {
    j == 0 || NextAfterLetter(pw[j - 1], AfterLetter(pw, j - 1))
  }

  /** A break point: a symbol other than '$', or a digit after a letter that stands for no letter. */
  predicate IsBreak(pw: string, j: nat)
    requires ValidKey(pw) && j < |pw|
  {
    BreakChar(pw[j], AfterLetter(pw, j))
  }

  /** A '1' after a letter, which may stand for 'i' or 'l'. */
  predicate IsOne(pw: string, j: nat)
    requires ValidKey(pw) && j < |pw|
  {
    OneChar(pw[j], AfterLetter(pw, j))
  }

  /** The character at index j once read: the letter a digit after a letter stands for. */
  function Substituted(pw: string, j: nat): char
    requires ValidKey(pw) && j < |pw|
  {
    SubChar(pw[j], AfterLetter(pw, j))
  }

  predicate Increasing(s: seq<int>) {
    forall a, b :: 0 <= a < b < |s| ==> s[a] < s[b]
  }

  /** Every element of s is an index of a string of length n. */
  predicate InRange(s: seq<int>, n: int) {
    forall i :: 0 <= i < |s| ==> 0 <= s[i] < n
  }

  /**
   * Appending i, when it is in `members`, to an increasing sequence of the members below i gives
   * an increasing sequence of the members below i + 1.
   */
  lemma AppendMember(s: seq<int>, t: seq<int>, members: set<int>, i: int)
    requires Increasing(s) && InRange(s, i) && 0 <= i
    requires forall j :: j in s <==> 0 <= j < i && j in members
    requires t == s + (if i in members then [i] else [])
    ensures Increasing(t) && InRange(t, i + 1)
    ensures forall j :: j in t <==> 0 <= j < i + 1 && j in members
  {
  }

  /** The break points of pw and its '1's read right after a letter. */
  ghost function Breaks(pw: string): set<int>
    requires ValidKey(pw)
  {
    set j | 0 <= j < |pw| && IsBreak(pw, j)
  }

  ghost function Ones(pw: string): set<int>
    requires ValidKey(pw)
  {
    set j | 0 <= j < |pw| && IsOne(pw, j)
  }

  /** The counting loop counts letters, digits and symbols by alphabet index. */
  lemma {:induction false} ScanCounts(pw: string, n: nat)
    requires ValidKey(pw) && n <= |pw|
    ensures ScanTo(pw, n).letters == CountIn(pw, n, 0, 25)
    ensures ScanTo(pw, n).digits == CountIn(pw, n, 26, 35)
    ensures ScanTo(pw, n).symbols == CountIn(pw, n, 36, 41)
    ensures ScanTo(pw, n).afterLetter == AfterLetter(pw, n)
  {
    if n > 0 {
      ScanCounts(pw, n - 1);
      var s := ScanTo(pw, n - 1);
      assert s.password[n - 1] == pw[n - 1];
    }
  }

  /** The loop rewrites each digit that stands for a letter right after a letter, and nothing else. */
  lemma {:induction false} ScanSubstitutes(pw: string, n: nat)
    requires ValidKey(pw) && n <= |pw|
    ensures forall j :: 0 <= j < n ==> ScanTo(pw, n).password[j] == Substituted(pw, j)
  {
    if n > 0 {
      ScanSubstitutes(pw, n - 1);
      ScanCounts(pw, n - 1);
      var s := ScanTo(pw, n - 1);
      assert s.password[n - 1] == pw[n - 1];
    }
  }

  /** The break points are, in increasing order, the indices below n that are break points. */
  lemma {:induction false} ScanBreaks(pw: string, n: nat)
    requires ValidKey(pw) && n <= |pw|
    ensures Increasing(ScanTo(pw, n).breakPts) && InRange(ScanTo(pw, n).breakPts, n)
    ensures forall j :: j in ScanTo(pw, n).breakPts <==> 0 <= j < n && j in Breaks(pw)
  {
    if n > 0 {
      ScanBreaks(pw, n - 1);
      ScanCounts(pw, n - 1);
      var s := ScanTo(pw, n - 1);
      assert s.password[n - 1] == pw[n - 1];
      AppendMember(s.breakPts, ScanTo(pw, n).breakPts, Breaks(pw), n - 1);
    }
  }

  /** The '1' positions are, in increasing order, the '1's below n read right after a letter. */
  lemma {:induction false} ScanOnes(pw: string, n: nat)
    requires ValidKey(pw) && n <= |pw|
    ensures Increasing(ScanTo(pw, n).oneIndex) && InRange(ScanTo(pw, n).oneIndex, n)
    ensures forall j :: j in ScanTo(pw, n).oneIndex <==> 0 <= j < n && j in Ones(pw)
  {
    if n > 0 {
      ScanOnes(pw, n - 1);
      ScanCounts(pw, n - 1);
      var s := ScanTo(pw, n - 1);
      assert s.password[n - 1] == pw[n - 1];
      AppendMember(s.oneIndex, ScanTo(pw, n).oneIndex, Ones(pw), n - 1);
    }
  }

  /** Every character is a letter, a digit or a symbol. */
  lemma {:induction false} ClassesPartition(pw: string, n: nat)
    requires ValidKey(pw) && n <= |pw|
    ensures CountIn(pw, n, 0, 25) + CountIn(pw, n, 26, 35) + CountIn(pw, n, 36, 41) == n
  {
    if n > 0 {
      ClassesPartition(pw, n - 1);
      assert ToIndex(pw[n - 1]) < R;
    }
  }

  /** The count checks of validatePassword. */
  predicate CountsValid(s: Scan) {
    1 <= s.letters <= 3 && 1 <= s.digits <= 2 && s.letters + s.digits < 5 && 1 <= s.symbols <= 2
  }

  /** The candidate pw[k..e], then its forms with 'i' and 'l' at the head of the '1' queue. */
  function Forms(pw: string, k: nat, e: nat, one: Option<int>): seq<string>
    requires k < e <= |pw| && (one.Some? ==> 0 <= one.value < |pw|)
  {
    [pw[k..e]] + (if one.Some? then [pw[one.value := 'i'][k..e], pw[one.value := 'l'][k..e]] else [])
  }

  /** The candidates for start k and exclusive ends e..w. */
  function FromStart(pw: string, k: nat, e: nat, w: nat, one: Option<int>): seq<string>
    requires k < e && w <= |pw| && (one.Some? ==> 0 <= one.value < |pw|)
    decreases w + 1 - e
  {
    if e > w then [] else Forms(pw, k, e, one) + FromStart(pw, k, e + 1, w, one)
  }

  /** Appending the forms for end e leaves the candidates for ends after e to come. */
  lemma FromStartStep(pw: string, k: nat, e: nat, w: nat, one: Option<int>, done: seq<string>)
    requires k < e <= w <= |pw| && (one.Some? ==> 0 <= one.value < |pw|)
    ensures (done + Forms(pw, k, e, one)) + FromStart(pw, k, e + 1, w, one) == done + FromStart(pw, k, e, w, one)
  {
  }

  /** The head of the '1' queue, if any. */
  function Head(ones: seq<int>): Option<int> {
    if ones == [] then None else Some(ones[0])
  }

  /** The '1' queue after a dequeue that is skipped when it is empty. */
  function Tail(ones: seq<int>): seq<int> {
    if ones == [] then [] else ones[1..]
  }

  /**
   * The candidates of starts k..w of a segment ending before w, with the '1' queue left after
   * them; the queue loses its head after each start.
   */
  function Segment(pw: string, k: nat, w: nat, ones: seq<int>): (seq<string>, seq<int>)
    requires w <= |pw| && InRange(ones, |pw|)
    decreases w + 1 - k
  {
    if k > w then ([], ones)
    else
      var here := FromStart(pw, k, k + 1, w, Head(ones));
      var rest := Segment(pw, k + 1, w, Tail(ones));
      (here + rest.0, rest.1)
  }

  lemma {:induction false} SegmentOnes(pw: string, k: nat, w: nat, ones: seq<int>)
    requires w <= |pw| && InRange(ones, |pw|)
    ensures InRange(Segment(pw, k, w, ones).1, |pw|)
    decreases w + 1 - k
  {
    if k <= w {
      SegmentOnes(pw, k + 1, w, Tail(ones));
    }
  }

  /**
   * The candidates hasWord generates: for each break point w, the segment from j (0, then one
   * past the previous break point) up to w; a break point at 0 has no segment.
   */
  function Gather(pw: string, breakPts: seq<int>, ones: seq<int>, j: nat): seq<string>
    requires InRange(breakPts, |pw| + 1) && InRange(ones, |pw|)
    decreases |breakPts|
  {
    if breakPts == [] then []
    else
      var w := breakPts[0];
      if w == 0 then Gather(pw, breakPts[1..], ones, w + 1)
      else
        var seg := Segment(pw, j, w, ones);
        SegmentOnes(pw, j, w, ones);
        seg.0 + Gather(pw, breakPts[1..], seg.1, w + 1)
  }

  /** The first index of the segment that ends at breakPts[m]. */
  function SegmentStart(breakPts: seq<int>, m: nat): int
    requires m < |breakPts|
  {
    if m == 0 then 0 else breakPts[m - 1] + 1
  }

  /** Every substring pw[k..e] of a segment is a candidate. */
  lemma {:induction false} FromStartHas(pw: string, k: nat, e0: nat, w: nat, one: Option<int>, e: nat)
    requires k < e0 <= e <= w <= |pw| && (one.Some? ==> 0 <= one.value < |pw|)
    ensures pw[k..e] in FromStart(pw, k, e0, w, one)
    decreases e - e0
  {
    if e0 < e {
      FromStartHas(pw, k, e0 + 1, w, one, e);
    }
  }

  lemma {:induction false} SegmentHas(pw: string, j: nat, w: nat, ones: seq<int>, k: nat, e: nat)
    requires j <= k < e <= w <= |pw| && InRange(ones, |pw|)
    ensures pw[k..e] in Segment(pw, j, w, ones).0
    decreases k - j
  {
    if j < k {
      SegmentHas(pw, j + 1, w, Tail(ones), k, e);
    } else {
      FromStartHas(pw, k, k + 1, w, Head(ones), e);
    }
  }

  lemma {:induction false} GatherHas(pw: string, breakPts: seq<int>, ones: seq<int>, j: nat, m: nat, k: nat, e: nat)
    requires InRange(breakPts, |pw| + 1) && InRange(ones, |pw|)
    requires m < |breakPts| && (if m == 0 then j else breakPts[m - 1] + 1) <= k < e <= breakPts[m]
    ensures pw[k..e] in Gather(pw, breakPts, ones, j)
    decreases m
  {
    var w := breakPts[0];
    var tail := breakPts[1..];
    if m == 0 {
      SegmentHas(pw, j, w, ones, k, e);
    } else if w == 0 {
      GatherHas(pw, tail, ones, w + 1, m - 1, k, e);
    } else {
      SegmentOnes(pw, j, w, ones);
      GatherHas(pw, tail, Segment(pw, j, w, ones).1, w + 1, m - 1, k, e);
    }
  }

  /**
   * Completeness of the candidates: every substring that lies between two consecutive break
   * points (or before the first) is generated.
   */
  lemma CandidatesComplete(pw: string, breakPts: seq<int>, ones: seq<int>, m: nat, k: nat, e: nat)
    requires InRange(breakPts, |pw| + 1) && InRange(ones, |pw|)
    requires m < |breakPts| && SegmentStart(breakPts, m) <= k < e <= breakPts[m]
    ensures pw[k..e] in Gather(pw, breakPts, ones, 0)
  {
    GatherHas(pw, breakPts, ones, 0, m, k, e);
  }

  /** A dictionary word w is stored in the DLB as w followed by the terminator. */
  ghost predicate IsWord(stored: map<string, int>, w: string) {
    w + [Terminator] in stored
  }

  /**
   * Some candidate among the first |check| / 2 is a word: 2 * m + 1 < |check| is m < |check| / 2.
   * These are the candidates the lookup loop of hasWord reaches.
   */
  ghost predicate FoundInFirstHalf(check: seq<string>, stored: map<string, int>) {
    exists m :: 0 <= m && 2 * m + 1 < |check| && IsWord(stored, check[m])
  }

  /** Some candidate is a word. */
  ghost predicate Found(check: seq<string>, stored: map<string, int>) {
    exists m :: 0 <= m < |check| && IsWord(stored, check[m])
  }

  /** Every entry of the '1' queue is an index of pw holding '1'. */
  predicate OnesAt(pw: string, ones: seq<int>) {
    forall i :: 0 <= i < |ones| ==> 0 <= ones[i] < |pw| && pw[ones[i]] == '1'
  }

  /** After reading, the break points are indices and the '1' queue points at '1's. */
  lemma ScanQueues(pw: string)
    requires ValidKey(pw)
    ensures InRange(ScanTo(pw, |pw|).breakPts, |pw| + 1)
    ensures OnesAt(ScanTo(pw, |pw|).password, ScanTo(pw, |pw|).oneIndex)
  {
    var s := ScanTo(pw, |pw|);
    ScanBreaks(pw, |pw|);
    ScanOnes(pw, |pw|);
    ScanSubstitutes(pw, |pw|);
    forall i | 0 <= i < |s.oneIndex|
      ensures 0 <= s.oneIndex[i] < |pw| && s.password[s.oneIndex[i]] == '1'
    {
      var o := s.oneIndex[i];
      assert o in s.oneIndex;
      assert IsOne(pw, o);
    }
  }

  /** The count checks on the password itself: 1-3 letters, 1-2 digits, 1-2 symbols, letters and digits not 5. */
  predicate ClassCountsValid(pw: string)
    requires ValidKey(pw)
  {
    var letters := CountIn(pw, |pw|, 0, 25);
    var digits := CountIn(pw, |pw|, 26, 35);
    var symbols := CountIn(pw, |pw|, 36, 41);
    1 <= letters <= 3 && 1 <= digits <= 2 && letters + digits < 5 && 1 <= symbols <= 2
  }

  lemma CountsValidByClass(pw: string)
    requires ValidKey(pw)
    ensures CountsValid(ScanTo(pw, |pw|)) <==> ClassCountsValid(pw)
  {
    ScanCounts(pw, |pw|);
  }

  /** A letter is counted and sets afterLetter; it stays as it is. */
  lemma StepLetter(s: Scan, i: nat)
    requires i < |s.password| && InAlphabet(s.password[i]) && ToIndex(s.password[i]) <= 25
    ensures Step(s, i) == s.(letters := s.letters + 1, afterLetter := true)
  {
    assert s.password[i := s.password[i]] == s.password;
  }

  /**
   * A digit is counted; after a letter one that stands for a letter is replaced by it, a '1'
   * is queued, and any other is a break point that clears afterLetter.
   */
  lemma StepDigit(s: Scan, i: nat)
    requires i < |s.password| && InAlphabet(s.password[i]) && 26 <= ToIndex(s.password[i]) <= 35
    ensures var c := s.password[i];
      Step(s, i) ==
        if !s.afterLetter then s.(digits := s.digits + 1)
        else if Leet(c).Some? then s.(digits := s.digits + 1, password := s.password[i := Leet(c).value])
        else if c == '1' then s.(digits := s.digits + 1, oneIndex := s.oneIndex + [i])
        else s.(digits := s.digits + 1, afterLetter := false, breakPts := s.breakPts + [i])
  {
    assert s.password[i := s.password[i]] == s.password;
  }

  /** A symbol is counted and clears afterLetter; any symbol but '$' is a break point. */
  lemma StepSymbol(s: Scan, i: nat)
    requires i < |s.password| && InAlphabet(s.password[i]) && 36 <= ToIndex(s.password[i])
    ensures var c := s.password[i];
      Step(s, i) ==
        s.(symbols := s.symbols + 1, afterLetter := false,
           breakPts := s.breakPts + (if c != '$' then [i] else []))
  {
    assert s.password[i := s.password[i]] == s.password;
  }

  /**
   * One pass of the counting loop of validatePassword, on the character at i. ToIndex is below
   * R, so the branch for a character outside the alphabet is never taken.
   */
  method ReadCharacter(password: array<char>, i: nat, letters: nat, digits: nat, symbols: nat,
                       afterLetter: bool, breakPts: seq<int>, oneIndex: seq<int>)
    returns (letters': nat, digits': nat, symbols': nat, afterLetter': bool,
             breakPts': seq<int>, oneIndex': seq<int>)
    requires i < password.Length && InAlphabet(password[i])
    modifies password
    ensures Scan(letters', digits', symbols', afterLetter', breakPts', oneIndex', password[..])
      == Step(Scan(letters, digits, symbols, afterLetter, breakPts, oneIndex, old(password[..])), i)
  {
    ghost var before := Scan(letters, digits, symbols, afterLetter, breakPts, oneIndex, password[..]);
    letters', digits', symbols', afterLetter', breakPts', oneIndex' :=
      letters, digits, symbols, afterLetter, breakPts, oneIndex;
    var c := password[i];
    if ToIndex(c) <= 25 {
      StepLetter(before, i);
      letters' := letters + 1;
      afterLetter' := true;
    } else if ToIndex(c) <= 35 {
      StepDigit(before, i);
      digits' := digits + 1;
      if afterLetter {
        if c == '7' {
          password[i] := 't';
        } else if c == '4' {
          password[i] := 'a';
        } else if c == '0' {
          password[i] := 'o';
        } else if c == '3' {
          password[i] := 'e';
        } else if c == '1' {
          oneIndex' := oneIndex + [i];
        } else {
          afterLetter' := false;
          breakPts' := breakPts + [i];
        }
      }
    } else {
      StepSymbol(before, i);
      symbols' := symbols + 1;
      if c != '$' {
        breakPts' := breakPts + [i];
      }
      afterLetter' := false;
    }
  }

  /** The counting loop of validatePassword: it computes the scan of the whole password. */
  method ReadPassword(password: array<char>) returns (letters: nat, digits: nat, symbols: nat,
                                                       breakPts: seq<int>, oneIndex: seq<int>)
    requires password.Length == Length && ValidKey(password[..])
    modifies password
    ensures var s := ScanTo(old(password[..]), Length);
      letters == s.letters && digits == s.digits && symbols == s.symbols &&
      breakPts == s.breakPts && oneIndex == s.oneIndex && password[..] == s.password
  {
    ghost var pw := password[..];
    letters, digits, symbols, breakPts, oneIndex := 0, 0, 0, [], [];
    var afterLetter := true;
    for i := 0 to Length
      invariant Scan(letters, digits, symbols, afterLetter, breakPts, oneIndex, password[..]) == ScanTo(pw, i)
    {
      assert password[i] == ScanTo(pw, i).password[i] == pw[i];
      letters, digits, symbols, afterLetter, breakPts, oneIndex :=
        ReadCharacter(password, i, letters, digits, symbols, afterLetter, breakPts, oneIndex);
    }
  }

  /**
   * The inner while loop of hasWord: the substrings password[k..e] for e up to w, each followed,
   * when the '1' queue has a head, by the forms with 'i' and then 'l' written at the head and
   * the '1' written back.
   */
  method Substrings(password: array<char>, k: nat, w: nat, one: Option<int>) returns (cands: seq<string>)
    requires w <= password.Length
    requires one.Some? ==> 0 <= one.value < password.Length && password[one.value] == '1'
    modifies password
    ensures password[..] == old(password[..])
    ensures cands == FromStart(old(password[..]), k, k + 1, w, one)
  {
    ghost var pw := password[..];
    cands := [];
    var end := k + 1;
    while end < w + 1
      invariant k < end && password[..] == pw
      invariant cands + FromStart(pw, k, end, w, one) == FromStart(pw, k, k + 1, w, one)
      decreases w + 1 - end
    {
      FromStartStep(pw, k, end, w, one, cands);
      var forms := [password[k..end]];
      if one.Some? {
        var index := one.value;
        password[index] := 'i';
        assert password[..] == pw[index := 'i'];
        var withI := password[k..end];
        password[index] := 'l';
        assert password[..] == pw[index := 'l'];
        var withL := password[k..end];
        password[index] := '1';
        assert password[..] == pw;
        forms := forms + [withI, withL];
      }
      cands := cands + forms;
      end := end + 1;
    }
  }

  /** One start of a segment: its candidates, then those of the later starts with the queue dequeued. */
  lemma SegmentStep(pw: string, k: nat, w: nat, ones: seq<int>, done: seq<string>)
    requires k <= w <= |pw| && OnesAt(pw, ones)
    ensures OnesAt(pw, Tail(ones)) && InRange(ones, |pw|) && InRange(Tail(ones), |pw|)
    ensures Head(ones).Some? ==> 0 <= Head(ones).value < |pw| && pw[Head(ones).value] == '1'
    ensures (done + FromStart(pw, k, k + 1, w, Head(ones))) + Segment(pw, k + 1, w, Tail(ones)).0
      == done + Segment(pw, k, w, ones).0
    ensures Segment(pw, k + 1, w, Tail(ones)).1 == Segment(pw, k, w, ones).1
  {
  }

  /** Past the last start a segment has no candidates and leaves the queue as it is. */
  lemma SegmentEnd(pw: string, k: nat, w: nat, ones: seq<int>, done: seq<string>)
    requires w < k && w <= |pw| && InRange(ones, |pw|)
    ensures done + Segment(pw, k, w, ones).0 == done && Segment(pw, k, w, ones).1 == ones
  {
  }

  /** The loop over the starts k of one segment, dequeuing the '1' queue after each start. */
  method SegmentCandidates(password: array<char>, j: nat, w: nat, ones: seq<int>)
    returns (cands: seq<string>, rest: seq<int>)
    requires w <= password.Length && OnesAt(password[..], ones)
    modifies password
    ensures password[..] == old(password[..]) && OnesAt(password[..], rest)
    ensures InRange(ones, password.Length)
    ensures cands == Segment(old(password[..]), j, w, ones).0
    ensures rest == Segment(old(password[..]), j, w, ones).1
  {
    ghost var pw := password[..];
    ghost var target := Segment(pw, j, w, ones);
    cands, rest := [], ones;
    var k := j;
    while k < w + 1
      invariant password[..] == pw && OnesAt(pw, rest) && InRange(rest, |pw|)
      invariant cands + Segment(pw, k, w, rest).0 == target.0
      invariant Segment(pw, k, w, rest).1 == target.1
      decreases w + 1 - k
    {
      SegmentStep(pw, k, w, rest, cands);
      var more := Substrings(password, k, w, Head(rest));
      cands := cands + more;
      rest := Tail(rest);
      k := k + 1;
    }
    SegmentEnd(pw, k, w, rest, cands);
  }

  /** A break point at 0 contributes no candidates. */
  lemma GatherSkip(pw: string, breakPts: seq<int>, i: nat, ones: seq<int>, j: nat)
    requires InRange(breakPts, |pw| + 1) && InRange(ones, |pw|) && i < |breakPts| && breakPts[i] == 0
    ensures InRange(breakPts[i + 1..], |pw| + 1)
    ensures Gather(pw, breakPts[i..], ones, j) == Gather(pw, breakPts[i + 1..], ones, 1)
  {
    assert breakPts[i..][1..] == breakPts[i + 1..];
  }

  /** Any other break point contributes the candidates of its segment. */
  lemma GatherSegment(pw: string, breakPts: seq<int>, i: nat, ones: seq<int>, j: nat)
    requires InRange(breakPts, |pw| + 1) && InRange(ones, |pw|) && i < |breakPts| && breakPts[i] != 0
    ensures InRange(breakPts[i + 1..], |pw| + 1) && InRange(Segment(pw, j, breakPts[i], ones).1, |pw|)
    ensures Segment(pw, j, breakPts[i], ones).0
      + Gather(pw, breakPts[i + 1..], Segment(pw, j, breakPts[i], ones).1, breakPts[i] + 1)
      == Gather(pw, breakPts[i..], ones, j)
  {
    assert breakPts[i..][1..] == breakPts[i + 1..];
    SegmentOnes(pw, j, breakPts[i], ones);
  }

  /** The candidates of one break point: none for a break point at 0, else its segment. */
  method BreakPointCandidates(password: array<char>, breakPts: seq<int>, i: nat, ones: seq<int>, j: nat)
    returns (cands: seq<string>, rest: seq<int>, next: nat)
    requires InRange(breakPts, password.Length + 1) && OnesAt(password[..], ones) && i < |breakPts|
    modifies password
    ensures password[..] == old(password[..]) && OnesAt(password[..], rest)
    ensures InRange(breakPts[i + 1..], password.Length + 1)
    ensures cands + Gather(old(password[..]), breakPts[i + 1..], rest, next)
      == Gather(old(password[..]), breakPts[i..], ones, j)
  {
    var wordEnd := breakPts[i];
    if wordEnd == 0 {
      GatherSkip(password[..], breakPts, i, ones, j);
      cands, rest := [], ones;
    } else {
      GatherSegment(password[..], breakPts, i, ones, j);
      cands, rest := SegmentCandidates(password, j, wordEnd, ones);
    }
    next := wordEnd + 1;
  }

  /** The generation loops of hasWord: one segment per break point. */
  method GatherCandidates(password: array<char>, breakPts: seq<int>, oneIndex: seq<int>)
    returns (check: seq<string>)
    requires InRange(breakPts, password.Length + 1) && OnesAt(password[..], oneIndex)
    modifies password
    ensures password[..] == old(password[..])
    ensures check == Gather(old(password[..]), breakPts, oneIndex, 0)
  {
    ghost var pw := password[..];
    check := [];
    var ones := oneIndex;
    var j: nat := 0;
    for i := 0 to |breakPts|
      invariant password[..] == pw && OnesAt(pw, ones)
      invariant check + Gather(pw, breakPts[i..], ones, j) == Gather(pw, breakPts, oneIndex, 0)
    {
      var cands, rest, next := BreakPointCandidates(password, breakPts, i, ones, j);
      ConcatAssociative(check, cands, Gather(pw, breakPts[i + 1..], rest, next));
      check, ones, j := check + cands, rest, next;
    }
  }

  lemma ConcatAssociative(a: seq<string>, b: seq<string>, c: seq<string>)
    ensures (a + b) + c == a + (b + c)
  {
  }

  /**
   * The lookup loop of hasWord: it dequeues a candidate per iteration while k < size - 1, with
   * the size shrinking, so it reaches only the first |check| / 2 candidates.
   */
  method LookupAsWritten(check: seq<string>, dictionary: DLB) returns (hasWord: bool)
    requires dictionary.Valid()
    ensures hasWord <==> FoundInFirstHalf(check, dictionary.node)
  {
    hasWord := false;
    var queue := check;
    var k := 0;
    while k < |queue| - 1
      invariant 0 <= k
      invariant !hasWord ==> k <= |check| && queue == check[k..]
      invariant !hasWord ==> forall m :: 0 <= m < k ==> !IsWord(dictionary.node, check[m])
      invariant hasWord ==> k == |queue| + 1 && FoundInFirstHalf(check, dictionary.node)
      decreases |queue| - k
    {
      var word := queue[0];
      queue := queue[1..];
      var result := dictionary.Search(word);
      if result == 0 || result == 1 {
        hasWord := false;
      } else if result == 2 || result == 3 {
        hasWord := true;
        k := |queue|;
      }
      k := k + 1;
    }
  }

  /** Looks up every candidate, stopping at the first word. */
  method Lookup(check: seq<string>, dictionary: DLB) returns (hasWord: bool)
    requires dictionary.Valid()
    ensures hasWord <==> Found(check, dictionary.node)
  {
    hasWord := false;
    var queue := check;
    var k := 0;
    while queue != [] && !hasWord
      invariant 0 <= k <= |check| && queue == check[k..]
      invariant !hasWord ==> forall m :: 0 <= m < k ==> !IsWord(dictionary.node, check[m])
      invariant hasWord ==> 0 < k && IsWord(dictionary.node, check[k - 1])
      decreases |queue|
    {
      var word := queue[0];
      assert word == check[k];
      queue := queue[1..];
      var result := dictionary.Search(word);
      hasWord := result == 2 || result == 3;
      k := k + 1;
    }
  }

  /** hasWord: generates the candidates, then looks up the first half of them. */
  method HasWord(password: array<char>, breakPts: seq<int>, oneIndex: seq<int>, dictionary: DLB)
    returns (hasWord: bool)
    requires dictionary.Valid()
    requires InRange(breakPts, password.Length + 1) && OnesAt(password[..], oneIndex)
    modifies password
    ensures password[..] == old(password[..])
    ensures hasWord <==> FoundInFirstHalf(Gather(old(password[..]), breakPts, oneIndex, 0), dictionary.node)
  {
    var check := GatherCandidates(password, breakPts, oneIndex);
    hasWord := LookupAsWritten(check, dictionary);
  }

  /**
   * hasWord as its documentation describes it: the substrings after the last break point are
   * candidates too (a break point at the end is added), and every candidate is looked up.
   */
  method HasWordCorrected(password: array<char>, breakPts: seq<int>, oneIndex: seq<int>, dictionary: DLB)
    returns (hasWord: bool)
    requires dictionary.Valid()
    requires InRange(breakPts, password.Length + 1) && OnesAt(password[..], oneIndex)
    modifies password
    ensures password[..] == old(password[..])
    ensures hasWord <==> Found(Gather(old(password[..]), breakPts + [password.Length], oneIndex, 0), dictionary.node)
  {
    EndBreak(breakPts, password.Length);
    var check := GatherCandidates(password, breakPts + [password.Length], oneIndex);
    hasWord := Lookup(check, dictionary);
  }

  /** The candidates hasWord generates for a password, read by the counting loop. */
  ghost function Candidates(pw: string): seq<string>
    requires ValidKey(pw)
  {
    var s := ScanTo(pw, |pw|);
    Gather(s.password, s.breakPts, s.oneIndex, 0)
  }

  lemma EndBreak(breakPts: seq<int>, n: nat)
    requires InRange(breakPts, n + 1)
    ensures InRange(breakPts + [n], n + 1)
  {
  }

  /** The candidates of the corrected hasWord, up to the end of the password. */
  ghost function CandidatesCorrected(pw: string): seq<string>
    requires ValidKey(pw)
  {
    var s := ScanTo(pw, |pw|);
    EndBreak(s.breakPts, |pw|);
    Gather(s.password, s.breakPts + [|pw|], s.oneIndex, 0)
  }

  /**
   * validatePassword: false unless the password has five characters, the class counts are
   * right and hasWord finds no word among the candidates it looks up. The digits that stand
   * for letters stay substituted in the caller's password.
   */
  method ValidatePassword(password: array<char>, dictionary: DLB) returns (valid: bool)
    requires dictionary.Valid()
    requires password.Length == Length ==> ValidKey(password[..])
    modifies password
    ensures password.Length != Length ==> !valid && password[..] == old(password[..])
    ensures password.Length == Length ==>
      password[..] == ScanTo(old(password[..]), Length).password &&
      (valid <==> ClassCountsValid(old(password[..])) &&
                  !FoundInFirstHalf(Candidates(old(password[..])), dictionary.node))
  {
    if password.Length > Length || password.Length < Length {
      return false;
    }
    ghost var pw := password[..];
    var letters, digits, symbols, breakPts, oneIndex := ReadPassword(password);
    ScanQueues(pw);
    CountsValidByClass(pw);
    if letters > 3 || letters < 1 {
      return false;
    }
    if digits > 2 || digits < 1 {
      return false;
    }
    if letters + digits >= 5 {
      return false;
    }
    if symbols > 2 || symbols < 1 {
      return false;
    }
    var found := HasWord(password, breakPts, oneIndex, dictionary);
    valid := !found;
  }

  /** validatePassword with the corrected hasWord. */
  method ValidatePasswordCorrected(password: array<char>, dictionary: DLB) returns (valid: bool)
    requires dictionary.Valid()
    requires password.Length == Length ==> ValidKey(password[..])
    modifies password
    ensures password.Length != Length ==> !valid && password[..] == old(password[..])
    ensures password.Length == Length ==>
      password[..] == ScanTo(old(password[..]), Length).password &&
      (valid <==> ClassCountsValid(old(password[..])) &&
                  !Found(CandidatesCorrected(old(password[..])), dictionary.node))
  {
    if password.Length > Length || password.Length < Length {
      return false;
    }
    ghost var pw := password[..];
    var letters, digits, symbols, breakPts, oneIndex := ReadPassword(password);
    ScanQueues(pw);
    CountsValidByClass(pw);
    if letters > 3 || letters < 1 {
      return false;
    }
    if digits > 2 || digits < 1 {
      return false;
    }
    if letters + digits >= 5 {
      return false;
    }
    if symbols > 2 || symbols < 1 {
      return false;
    }
    var found := HasWordCorrected(password, breakPts, oneIndex, dictionary);
    valid := !found;
  }

  /** No break point of pw lies in k..e-1. */
  ghost predicate BreakFree(pw: string, k: int, e: int)
    requires ValidKey(pw)
  {
    forall j :: k <= j < e ==> j !in Breaks(pw)
  }

  /** The segment that holds a stretch k..e-1 free of break points, when the last break point is at or after e. */
  lemma SegmentContaining(t: seq<int>, k: int, e: int) returns (m: nat)
    requires t != [] && 0 <= k < e <= t[|t| - 1]
    requires forall i :: 0 <= i < |t| ==> !(k <= t[i] < e)
    ensures m < |t| && SegmentStart(t, m) <= k && e <= t[m]
  {
    m := 0;
    while t[m] < e
      invariant m < |t|
      invariant forall i :: 0 <= i < m ==> t[i] < e
      decreases |t| - m
    {
      m := m + 1;
    }
  }

  /**
   * With a break point added at the end, every substring of the read password that holds no
   * break point is a candidate.
   */
  lemma CorrectedCandidatesComplete(pw: string, k: nat, e: nat)
    requires ValidKey(pw) && k < e <= |pw| && BreakFree(pw, k, e)
    ensures ScanTo(pw, |pw|).password[k..e] in CandidatesCorrected(pw)
  {
    var s := ScanTo(pw, |pw|);
    ScanQueues(pw);
    ScanBreaks(pw, |pw|);
    var t := s.breakPts + [|pw|];
    forall i | 0 <= i < |t|
      ensures !(k <= t[i] < e)
    {
      if i < |s.breakPts| {
        assert t[i] in s.breakPts;
      }
    }
    var m := SegmentContaining(t, k, e);
    CandidatesComplete(s.password, t, s.oneIndex, m, k, e);
  }

  /** So a password the corrected check accepts holds no word between break points. */
  lemma CorrectedFindsEveryWord(pw: string, stored: map<string, int>, k: nat, e: nat)
    requires ValidKey(pw) && !Found(CandidatesCorrected(pw), stored)
    requires k < e <= |pw| && BreakFree(pw, k, e)
    ensures !IsWord(stored, ScanTo(pw, |pw|).password[k..e])
  {
    CorrectedCandidatesComplete(pw, k, e);
  }

  /** Adding break points at the end adds candidates at the end. */
  lemma {:induction false} GatherPrefix(pw: string, breakPts: seq<int>, extra: seq<int>, ones: seq<int>, j: nat)
    requires InRange(breakPts, |pw| + 1) && InRange(extra, |pw| + 1) && InRange(ones, |pw|)
    ensures InRange(breakPts + extra, |pw| + 1)
    ensures Gather(pw, breakPts, ones, j) <= Gather(pw, breakPts + extra, ones, j)
    decreases |breakPts|
  {
    var t := breakPts + extra;
    assert forall i :: 0 <= i < |t| ==> t[i] == (if i < |breakPts| then breakPts[i] else extra[i - |breakPts|]);
    if breakPts != [] {
      var w := breakPts[0];
      assert t[1..] == breakPts[1..] + extra;
      if w == 0 {
        GatherPrefix(pw, breakPts[1..], extra, ones, w + 1);
      } else {
        SegmentOnes(pw, j, w, ones);
        GatherPrefix(pw, breakPts[1..], extra, Segment(pw, j, w, ones).1, w + 1);
      }
    }
  }

  /** The corrected check rejects every password the check as written rejects for a word. */
  lemma CorrectedRejectsMore(pw: string, stored: map<string, int>)
    requires ValidKey(pw) && FoundInFirstHalf(Candidates(pw), stored)
    ensures Found(CandidatesCorrected(pw), stored)
  {
    var s := ScanTo(pw, |pw|);
    ScanQueues(pw);
    GatherPrefix(s.password, s.breakPts, [|pw|], s.oneIndex, 0);
    var m :| 0 <= m && 2 * m + 1 < |Candidates(pw)| && IsWord(stored, Candidates(pw)[m]);
    assert CandidatesCorrected(pw)[m] == Candidates(pw)[m];
  }
}
