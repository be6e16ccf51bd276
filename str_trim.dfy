/**
  Whitespace trimming of strings, in place and by copy.

  A C++ `std::string` is modelled as a `seq<char>`. The in-place operations
  work on a `MutableString`, whose `chars` field they reassign the way
  `std::string::erase` shrinks the string; the copying operations take the
  string by value, trim a private copy and return it.

  The specification is given by three functions, `LTrimmed`, `RTrimmed` and
  `Trimmed`, built on the two cut points the scans look for:
  `FirstNonSpace` (the forward search) and `ContentEnd` (the backward search).
*/
module StrTrim {

  /** `std::isspace` in the C locale: space, tab, line feed, vertical tab,
      form feed and carriage return. */
  predicate IsSpace(c: char) {
    c == ' ' || c == '\t' || c == '\n' || c == '\U{B}' || c == '\U{C}' || c == '\r'
  }

  /** Every character of `s` is whitespace (true of the empty string). */
  predicate AllSpace(s: seq<char>) {
    forall k :: 0 <= k < |s| ==> IsSpace(s[k])
  }

  // ---------------------------------------------------------------------------
  // Cut points
  // ---------------------------------------------------------------------------

  /** Position of the first non-whitespace character, or `|s|` when there is
      none: where a forward search for "not a space" stops. */
  function FirstNonSpace(s: seq<char>): (i: nat)
    ensures i <= |s|
    ensures AllSpace(s[..i])
    ensures i < |s| ==> !IsSpace(s[i])
  {
    if s == [] || !IsSpace(s[0]) then 0
    else
      var i := 1 + FirstNonSpace(s[1..]);
      assert forall k :: 1 <= k < i ==> s[k] == s[1..][k - 1];
      i
  }

  /** Position just past the last non-whitespace character, or 0 when there
      is none: where a backward search for "not a space" stops, converted to
      a forward position. */
  function ContentEnd(s: seq<char>): (j: nat)
    ensures j <= |s|
    ensures AllSpace(s[j..])
    ensures j > 0 ==> !IsSpace(s[j - 1])
  {
    if s == [] || !IsSpace(s[|s| - 1]) then |s|
    else
      var j := ContentEnd(s[..|s| - 1]);
      assert forall k :: j <= k < |s| - 1 ==> s[k] == s[..|s| - 1][k];
      j
  }

  /** The three facts `FirstNonSpace` ensures determine it. */
  lemma FirstNonSpaceUnique(s: seq<char>, i: nat)
    requires i <= |s|
    requires AllSpace(s[..i])
    requires i < |s| ==> !IsSpace(s[i])
    ensures i == FirstNonSpace(s)
  {
    var f := FirstNonSpace(s);
    if i < f {
      assert false;
    } else if f < i {
      assert false;
    }
  }

  /** The three facts `ContentEnd` ensures determine it. */
  lemma ContentEndUnique(s: seq<char>, j: nat)
    requires j <= |s|
    requires AllSpace(s[j..])
    requires j > 0 ==> !IsSpace(s[j - 1])
    ensures j == ContentEnd(s)
  {
    var e := ContentEnd(s);
    if j < e {
      assert false;
    } else if e < j {
      assert false;
    }
  }

  // ---------------------------------------------------------------------------
  // Specification of the three trims
  // ---------------------------------------------------------------------------

  /** What trimming from the start leaves: the suffix after the leading
      whitespace. */
  function LTrimmed(s: seq<char>): (r: seq<char>)
    ensures |r| <= |s|
    ensures r == s[|s| - |r|..]
    ensures AllSpace(s[..|s| - |r|])
    ensures r == [] || !IsSpace(r[0])
  {
    s[FirstNonSpace(s)..]
  }

  /** What trimming from the end leaves: the prefix before the trailing
      whitespace. */
  function RTrimmed(s: seq<char>): (r: seq<char>)
    ensures |r| <= |s|
    ensures r == s[..|r|]
    ensures AllSpace(s[|r|..])
    ensures r == [] || !IsSpace(r[|r| - 1])
  {
    s[..ContentEnd(s)]
  }

  /** What trimming both ends leaves: trim the start, then the end. The
      result is the slice of `s` between its leading and trailing
      whitespace; everything inside it, interior spaces included, is kept. */
  function Trimmed(s: seq<char>): (r: seq<char>)
    ensures FirstNonSpace(s) + |r| <= |s|
    ensures r == s[FirstNonSpace(s)..FirstNonSpace(s) + |r|]
    ensures AllSpace(s[FirstNonSpace(s) + |r|..])
    ensures r != [] ==> FirstNonSpace(s) + |r| == ContentEnd(s)
    ensures r == [] || (!IsSpace(r[0]) && !IsSpace(r[|r| - 1]))
  {
    var l := LTrimmed(s);
    var r := RTrimmed(l);
    assert l == s[FirstNonSpace(s)..];
    assert s[FirstNonSpace(s) + |r|..] == l[|r|..];
    if r == [] then r
    else
      assert s[FirstNonSpace(s) + |r| - 1] == r[|r| - 1];
      ContentEndUnique(s, FirstNonSpace(s) + |r|);
      r
  }

  // ---------------------------------------------------------------------------
  // Properties
  // ---------------------------------------------------------------------------

  /** Conversely, whitespace followed by a string that does not start with
      whitespace trims from the start to exactly that string. */
  lemma LTrimmedCharacterized(p: seq<char>, r: seq<char>)
    requires AllSpace(p)
    requires r == [] || !IsSpace(r[0])
    ensures LTrimmed(p + r) == r
  {
    var s := p + r;
    assert s[..|p|] == p;
    FirstNonSpaceUnique(s, |p|);
    assert s[|p|..] == r;
  }

  /** Conversely, a string that does not end with whitespace, followed by
      whitespace, trims from the end to exactly that string. */
  lemma RTrimmedCharacterized(r: seq<char>, q: seq<char>)
    requires AllSpace(q)
    requires r == [] || !IsSpace(r[|r| - 1])
    ensures RTrimmed(r + q) == r
  {
    var s := r + q;
    assert s[|r|..] == q;
    ContentEndUnique(s, |r|);
    assert s[..|r|] == r;
  }

  /** A string is emptied by a trim exactly when it is all whitespace
      (the empty string included). */
  lemma {:induction false} EmptiedIffAllSpace(s: seq<char>)
    ensures LTrimmed(s) == [] <==> AllSpace(s)
    ensures RTrimmed(s) == [] <==> AllSpace(s)
    ensures Trimmed(s) == [] <==> AllSpace(s)
  {
    if AllSpace(s) {
      LTrimmedCharacterized(s, []);
      assert s + [] == s;
      RTrimmedCharacterized([], s);
      assert [] + s == s;
    }
  }

  /** A trim changes nothing exactly when the end(s) it looks at do not hold
      whitespace. */
  lemma UnchangedIffNoSpaceAtEnds(s: seq<char>)
    ensures LTrimmed(s) == s <==> (s == [] || !IsSpace(s[0]))
    ensures RTrimmed(s) == s <==> (s == [] || !IsSpace(s[|s| - 1]))
    ensures Trimmed(s) == s <==> (s == [] || (!IsSpace(s[0]) && !IsSpace(s[|s| - 1])))
  {
    if s == [] || !IsSpace(s[0]) {
      LTrimmedCharacterized([], s);
      assert [] + s == s;
    }
    if s == [] || !IsSpace(s[|s| - 1]) {
      RTrimmedCharacterized(s, []);
      assert s + [] == s;
    }
  }

  /** Each trim is idempotent. */
  lemma Idempotent(s: seq<char>)
    ensures LTrimmed(LTrimmed(s)) == LTrimmed(s)
    ensures RTrimmed(RTrimmed(s)) == RTrimmed(s)
    ensures Trimmed(Trimmed(s)) == Trimmed(s)
  {
    UnchangedIffNoSpaceAtEnds(LTrimmed(s));
    UnchangedIffNoSpaceAtEnds(RTrimmed(s));
    UnchangedIffNoSpaceAtEnds(Trimmed(s));
  }

  /** Order does not matter: trimming the end first and then the start gives
      the same string as trimming the start first and then the end. */
  lemma TrimOrderIrrelevant(s: seq<char>)
    ensures LTrimmed(RTrimmed(s)) == Trimmed(s)
  {
    var t := Trimmed(s);
    if t == [] {
      // all whitespace: both orders empty the string
      EmptiedIffAllSpace(s);
    } else {
      var i := FirstNonSpace(s);
      var j := i + |t|;
      assert s == (s[..i] + t) + s[j..];
      // trimming the end first keeps the leading whitespace and t
      RTrimmedCharacterized(s[..i] + t, s[j..]);
      LTrimmedCharacterized(s[..i], t);
    }
  }

  /** Length never grows, and shrinks exactly when the end(s) looked at hold
      whitespace. */
  lemma ShrinksIffSpaceAtEnds(s: seq<char>)
    ensures |LTrimmed(s)| < |s| <==> (s != [] && IsSpace(s[0]))
    ensures |RTrimmed(s)| < |s| <==> (s != [] && IsSpace(s[|s| - 1]))
    ensures |Trimmed(s)| < |s| <==> (s != [] && (IsSpace(s[0]) || IsSpace(s[|s| - 1])))
  {
    UnchangedIffNoSpaceAtEnds(s);
  }

  // ---------------------------------------------------------------------------
  // The searches
  // ---------------------------------------------------------------------------

  /** Forward search from the start for the first non-whitespace character;
      the end position when there is none. */
  method FindFirstNonSpace(s: seq<char>) returns (i: nat)
    ensures i == FirstNonSpace(s)
  {
    i := 0;
    while i < |s| && IsSpace(s[i])
      invariant i <= |s|
      invariant AllSpace(s[..i])
    {
      assert s[..i + 1] == s[..i] + [s[i]];
      i := i + 1;
    }
    FirstNonSpaceUnique(s, i);
  }

  /** Backward search from the end for the last non-whitespace character,
      returning the position just past it; 0 when there is none. */
  method FindContentEnd(s: seq<char>) returns (j: nat)
    ensures j == ContentEnd(s)
  {
    j := |s|;
    while j > 0 && IsSpace(s[j - 1])
      invariant j <= |s|
      invariant AllSpace(s[j..])
    {
      assert s[j - 1..] == [s[j - 1]] + s[j..];
      j := j - 1;
    }
    ContentEndUnique(s, j);
  }

  // ---------------------------------------------------------------------------
  // In-place trims
  // ---------------------------------------------------------------------------

  /** A string that the trims shorten in place. */
  class MutableString {
    var chars: seq<char>

    constructor (s: seq<char>)
      ensures chars == s
    {
      chars := s;
    }

    /** Erase the leading whitespace. */
    method LTrim()
      modifies this
      ensures chars == LTrimmed(old(chars))
    {
      var i := FindFirstNonSpace(chars);
      chars := chars[i..];
    }

    /** Erase the trailing whitespace. */
    method RTrim()
      modifies this
      ensures chars == RTrimmed(old(chars))
    {
      var j := FindContentEnd(chars);
      chars := chars[..j];
    }

    /** Erase the leading, then the trailing whitespace. */
    method Trim()
      modifies this
      ensures chars == Trimmed(old(chars))
    {
      LTrim();
      RTrim();
    }
  }

  // ---------------------------------------------------------------------------
  // Copying trims
  // ---------------------------------------------------------------------------

  /** Trim the start of a copy of `s` and return it. */
  method LTrimCopy(s: seq<char>) returns (r: seq<char>)
    ensures r == LTrimmed(s)
  {
    var copy := new MutableString(s);
    copy.LTrim();
    r := copy.chars;
  }

  /** Trim the end of a copy of `s` and return it. */
  method RTrimCopy(s: seq<char>) returns (r: seq<char>)
    ensures r == RTrimmed(s)
  {
    var copy := new MutableString(s);
    copy.RTrim();
    r := copy.chars;
  }

  /** Trim a copy of `s`, the end first and then the start, and return it:
      the same string the in-place `Trim` leaves. */
  method TrimCopy(s: seq<char>) returns (r: seq<char>)
    ensures r == Trimmed(s)
  {
    var copy := new MutableString(s);
    copy.RTrim();
    copy.LTrim();
    r := copy.chars;
    TrimOrderIrrelevant(s);
  }
}
