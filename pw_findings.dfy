/**
 * Two passwords that validatePassword accepts although they contain a dictionary word that
 * its documentation says is looked for; the corrected check rejects both.
 */
module PasswordFindings {
  import opened Wrappers
  import opened Alphabets
  import opened DlbTries
  import opened PasswordCheck

  /** Letters c, a, t, then a break point at the symbol; the '9' follows no letter. */
  function CatNine(): (pw: string)
    ensures pw == "cat!9"
  {
    "cat!9"
  }

  /** Break points at 0 and 1, then the letters c, a, t. */
  function NineCat(): (pw: string)
    ensures pw == "9!cat"
  {
    "9!cat"
  }

  lemma ReadCatNine()
    ensures ValidKey(CatNine()) && |CatNine()| == 5
    ensures ScanTo(CatNine(), 5) == Scan(3, 1, 1, false, [3], [], CatNine())
  {
    var pw := CatNine();
    var s := Scan(0, 0, 0, true, [], [], pw);
    assert ScanTo(pw, 0) == s;
    StepLetter(s, 0);
    s := Scan(1, 0, 0, true, [], [], pw);
    assert ScanTo(pw, 1) == s;
    StepLetter(s, 1);
    s := Scan(2, 0, 0, true, [], [], pw);
    assert ScanTo(pw, 2) == s;
    StepLetter(s, 2);
    s := Scan(3, 0, 0, true, [], [], pw);
    assert ScanTo(pw, 3) == s;
    StepSymbol(s, 3);
    s := Scan(3, 0, 1, false, [3], [], pw);
    assert ScanTo(pw, 4) == s;
    StepDigit(s, 4);
  }

  /** The one segment, 0..2, gives every substring of "cat" once; there is no '1' to vary. */
  lemma CatSegment()
    ensures |CatNine()| == 5 && Gather(CatNine(), [3], [], 0) == ["c", "ca", "cat", "a", "at", "t"]
  {
    var pw := CatNine();
    assert pw[0..1] == "c" && pw[0..2] == "ca" && pw[0..3] == "cat";
    assert pw[1..2] == "a" && pw[1..3] == "at" && pw[2..3] == "t";
    assert FromStart(pw, 0, 1, 3, None) == ["c", "ca", "cat"] by {
      assert FromStart(pw, 0, 3, 3, None) == ["cat"];
      assert FromStart(pw, 0, 2, 3, None) == ["ca", "cat"];
    }
    assert FromStart(pw, 1, 2, 3, None) == ["a", "at"] by {
      assert FromStart(pw, 1, 3, 3, None) == ["at"];
    }
    assert FromStart(pw, 2, 3, 3, None) == ["t"];
    assert Segment(pw, 3, 3, []).0 == [];
    assert Segment(pw, 2, 3, []).0 == ["t"];
    assert Segment(pw, 1, 3, []).0 == ["a", "at", "t"];
    assert Segment(pw, 0, 3, []).0 == ["c", "ca", "cat", "a", "at", "t"];
    assert Gather(pw, [3], [], 0) == Segment(pw, 0, 3, []).0 + Gather(pw, [], Segment(pw, 0, 3, []).1, 4);
  }

  /** A dictionary holding only "at": the looked-up "c", "ca" and "cat" are not words. */
  lemma OnlyAt(keys: set<string>)
    requires keys == {[]} + Prefixes("at" + [Terminator])
    ensures "c" + [Terminator] !in keys && "ca" + [Terminator] !in keys && "cat" + [Terminator] !in keys
  {
    assert "at" + [Terminator] == "at#";
    assert "c" + [Terminator] == "c#" && "ca" + [Terminator] == "ca#" && "cat" + [Terminator] == "cat#";
    PrefixesAre("at#", "c#");
    PrefixesAre("at#", "ca#");
    PrefixesAre("at#", "cat#");
  }

  /** A fresh array holding the characters of s. */
  method ArrayOf(s: string) returns (a: array<char>)
    ensures fresh(a) && a[..] == s
  {
    a := new char[|s|](i requires 0 <= i < |s| => s[i]);
  }

  /** A DLB dictionary holding the one word w. */
  method DictionaryOf(w: string) returns (d: DLB)
    ensures fresh(d) && d.Valid()
    ensures d.node.Keys == {[]} + Prefixes(w + [Terminator])
  {
    d := new DLB();
    var added := d.Add(w);
  }

  /** Validates fresh copies of pw with the check as written and with the corrected one. */
  method Compare(pw: string, dictionary: DLB) returns (asWritten: bool, corrected: bool)
    requires dictionary.Valid() && |pw| == Length && ValidKey(pw)
    ensures asWritten <==> ClassCountsValid(pw) && !FoundInFirstHalf(Candidates(pw), dictionary.node)
    ensures corrected <==> ClassCountsValid(pw) && !Found(CandidatesCorrected(pw), dictionary.node)
  {
    var password := ArrayOf(pw);
    asWritten := ValidatePassword(password, dictionary);
    password := ArrayOf(pw);
    corrected := ValidatePasswordCorrected(password, dictionary);
  }

  /** The candidates of "cat!9" are those of its one break point, at 3. */
  lemma CatCandidates()
    ensures ValidKey(CatNine()) && |CatNine()| == 5
    ensures Candidates(CatNine()) == Gather(CatNine(), [3], [], 0)
    ensures CandidatesCorrected(CatNine()) == Gather(CatNine(), [3, 5], [], 0)
  {
    ReadCatNine();
    assert [3] + [5] == [3, 5];
  }

  /** The lookup as written reaches the first three of the six candidates, none of them a word. */
  lemma CatFirstHalf(stored: map<string, int>)
    requires "c" + [Terminator] !in stored && "ca" + [Terminator] !in stored && "cat" + [Terminator] !in stored
    ensures |CatNine()| == 5 && !FoundInFirstHalf(Gather(CatNine(), [3], [], 0), stored)
  {
    CatSegment();
    FirstThree("c", "ca", "cat", "a", "at", "t", stored);
  }

  /** Of six candidates the lookup as written reaches the first three. */
  lemma FirstThree(a: string, b: string, c: string, d: string, e: string, f: string, stored: map<string, int>)
    requires !IsWord(stored, a) && !IsWord(stored, b) && !IsWord(stored, c)
    ensures !FoundInFirstHalf([a, b, c, d, e, f], stored)
  {
    var check := [a, b, c, d, e, f];
    forall m | 0 <= m && 2 * m + 1 < |check|
      ensures !IsWord(stored, check[m])
    {
      assert m == 0 || m == 1 || m == 2;
    }
  }

  /** With the end of the password as a last break point, "at" is a candidate and is looked up. */
  lemma CatCorrected(stored: map<string, int>)
    requires IsWord(stored, "at")
    ensures |CatNine()| == 5 && Found(Gather(CatNine(), [3, 5], [], 0), stored)
  {
    var pw := CatNine();
    assert pw[1..3] == "at";
    CandidatesComplete(pw, [3, 5], [], 0, 1, 3);
  }

  /** What both checks need to know about "cat!9" and a dictionary holding "at". */
  lemma CatNineOutcome(stored: map<string, int>)
    requires stored.Keys == {[]} + Prefixes("at" + [Terminator])
    ensures ValidKey(CatNine()) && |CatNine()| == Length && ClassCountsValid(CatNine())
    ensures !FoundInFirstHalf(Candidates(CatNine()), stored)
    ensures Found(CandidatesCorrected(CatNine()), stored)
  {
    OnlyAt(stored.Keys);
    CatFirstHalf(stored);
    StoredWord("at", stored);
    CatCorrected(stored);
    CatCandidates();
    ReadCatNine();
    CountsValidByClass(CatNine());
  }

  /** The one word of a dictionary is a word. */
  lemma StoredWord(w: string, stored: map<string, int>)
    requires stored.Keys == {[]} + Prefixes(w + [Terminator])
    ensures IsWord(stored, w)
  {
    var t := w + [Terminator];
    PrefixesAre(t, t);
    assert t[..|t|] == t;
  }

  /**
   * "cat!9" with a dictionary holding "at": validatePassword accepts it, because the lookup
   * stops after "c", "ca" and "cat"; the corrected check finds "at".
   */
  method CatNineWithAt() returns (asWritten: bool, corrected: bool)
    ensures asWritten && !corrected
  {
    var dictionary := DictionaryOf("at");
    CatNineOutcome(dictionary.node);
    asWritten, corrected := Compare(CatNine(), dictionary);
  }

  lemma ReadNineCat()
    ensures ValidKey(NineCat()) && |NineCat()| == 5
    ensures ScanTo(NineCat(), 5) == Scan(3, 1, 1, true, [0, 1], [], NineCat())
  {
    var pw := NineCat();
    var s := Scan(0, 0, 0, true, [], [], pw);
    assert ScanTo(pw, 0) == s;
    StepDigit(s, 0);
    s := Scan(0, 1, 0, false, [0], [], pw);
    assert ScanTo(pw, 1) == s;
    StepSymbol(s, 1);
    s := Scan(0, 1, 1, false, [0, 1], [], pw);
    assert ScanTo(pw, 2) == s;
    StepLetter(s, 2);
    s := Scan(1, 1, 1, true, [0, 1], [], pw);
    assert ScanTo(pw, 3) == s;
    StepLetter(s, 3);
    s := Scan(2, 1, 1, true, [0, 1], [], pw);
    assert ScanTo(pw, 4) == s;
    StepLetter(s, 4);
  }

  /** The candidates of "9!cat" are those of its break points, 0 and 1. */
  lemma NineCatCandidates()
    ensures ValidKey(NineCat()) && |NineCat()| == 5
    ensures Candidates(NineCat()) == Gather(NineCat(), [0, 1], [], 0)
    ensures CandidatesCorrected(NineCat()) == Gather(NineCat(), [0, 1, 5], [], 0)
  {
    ReadNineCat();
    assert [0, 1] + [5] == [0, 1, 5];
  }

  /** hasWord as written has no candidate at all for "9!cat". */
  lemma NineCatNone()
    ensures |NineCat()| == 5 && Gather(NineCat(), [0, 1], [], 0) == []
  {
    var pw := NineCat();
    assert FromStart(pw, 1, 2, 1, None) == [];
    assert Segment(pw, 2, 1, []) == ([], []);
    assert Head([]) == None && Tail([]) == [];
    assert Segment(pw, 1, 1, []).0 == FromStart(pw, 1, 2, 1, None) + Segment(pw, 2, 1, []).0;
    assert Segment(pw, 1, 1, []) == ([], []);
    assert Gather(pw, [1], [], 1) == [];
  }

  /** The corrected candidates run on to the end, from 'c': "c", "ca", "cat", ... */
  lemma NineCatTail()
    ensures |NineCat()| == 5 && "cat" in Gather(NineCat(), [0, 1, 5], [], 0)
  {
    var pw := NineCat();
    assert pw[2..5] == "cat";
    CandidatesComplete(pw, [0, 1, 5], [], 2, 2, 5);
  }

  /** What both checks need to know about "9!cat" and a dictionary holding "cat". */
  lemma NineCatOutcome(stored: map<string, int>)
    requires stored.Keys == {[]} + Prefixes("cat" + [Terminator])
    ensures ValidKey(NineCat()) && |NineCat()| == Length && ClassCountsValid(NineCat())
    ensures !FoundInFirstHalf(Candidates(NineCat()), stored)
    ensures Found(CandidatesCorrected(NineCat()), stored)
  {
    StoredWord("cat", stored);
    NineCatCandidates();
    NineCatNone();
    NineCatTail();
    ReadNineCat();
    CountsValidByClass(NineCat());
  }

  /**
   * "9!cat" with a dictionary holding "cat": validatePassword accepts it, because no candidate
   * is generated after the last break point; the corrected check finds "cat".
   */
  method NineCatWithCat() returns (asWritten: bool, corrected: bool)
    ensures asWritten && !corrected
  {
    var dictionary := DictionaryOf("cat");
    NineCatOutcome(dictionary.node);
    asWritten, corrected := Compare(NineCat(), dictionary);
  }
}
