/**
 * The complexity tiers and their character sets (the `CHARSETS` table),
 * built from Python's `string` constants.
 */
module Charsets {
  import opened Wrappers
  import opened Sequences

  predicate IsLower(c: char) { 'a' <= c <= 'z' }
  predicate IsUpper(c: char) { 'A' <= c <= 'Z' }
  predicate IsDigit(c: char) { '0' <= c <= '9' }

  /** The ASCII characters `first`, `first + 1`, ..., `last`, in code order. */
  function CharRange(first: char, last: char): (r: string)
    requires first <= last && last as int < 128
    ensures |r| == last as int - first as int + 1
    ensures forall i :: 0 <= i < |r| ==> r[i] as int == first as int + i
  {
    seq(last as int - first as int + 1, i requires 0 <= i <= last as int - first as int => (first as int + i) as char)
  }

  /** A range holds exactly the characters between its ends, each once. */
  lemma CharRangeContents(first: char, last: char)
    requires first <= last && last as int < 128
    ensures forall c :: c in CharRange(first, last) <==> first <= c <= last
    ensures Distinct(CharRange(first, last))
  {
    var r := CharRange(first, last);
    forall c | first <= c <= last ensures c in r {
      assert r[c as int - first as int] == c;
    }
  }

  // Python's string.ascii_lowercase, ascii_uppercase, ascii_letters, digits,
  // punctuation, whitespace and printable, in Python's order.
  const AsciiLowercase: string := CharRange('a', 'z')
  const AsciiUppercase: string := CharRange('A', 'Z')
  const AsciiLetters: string := AsciiLowercase + AsciiUppercase
  const Digits: string := CharRange('0', '9')
  const Punctuation: string := CharRange('!', '/') + CharRange(':', '@') + CharRange('[', '`') + CharRange('{', '~')
  const Whitespace: string := [' ', '\t', '\n', '\r', '\U{B}', '\U{C}']
  const Printable: string := Digits + AsciiLetters + Punctuation + Whitespace

  /** The symbols the strong tier adds to letters and digits. */
  const StrongSymbols: string := "!@#$%^&*()-_=+"

  datatype Tier = Simple | Strong | Maximum

  /** The tier's key in the registry. */
  function Name(t: Tier): string {
    match t
    case Simple => "simple"
    case Strong => "strong"
    case Maximum => "maximum"
  }

  /** The registry's keys in insertion order. */
  const TierNames: seq<string> := [Name(Simple), Name(Strong), Name(Maximum)]

  /** Registry lookup by key: `complexity in CHARSETS`. */
  function ParseTier(name: string): (r: Option<Tier>)
    ensures r.Some? <==> name in TierNames
    ensures r.Some? ==> Name(r.value) == name
  {
    if name == "simple" then Some(Simple)
    else if name == "strong" then Some(Strong)
    else if name == "maximum" then Some(Maximum)
    else None
  }

  /** Looking up a tier's own name finds that tier. */
  lemma NameRoundTrip(t: Tier)
    ensures Name(t) in TierNames && ParseTier(Name(t)) == Some(t)
  {
  }

  /** `CHARSETS[name]` for the tier's name. */
  function Charset(t: Tier): string {
    match t
    case Simple => AsciiLetters + Digits
    case Strong => AsciiLetters + Digits + StrongSymbols
    case Maximum => Without(Printable, Whitespace)
  }

  /** The number of characters in each tier. */
  function CharsetSize(t: Tier): nat {
    match t
    case Simple => 62
    case Strong => 76
    case Maximum => 94
  }

  lemma ClassRanges()
    ensures forall c :: c in AsciiLowercase <==> IsLower(c)
    ensures forall c :: c in AsciiUppercase <==> IsUpper(c)
    ensures forall c :: c in Digits <==> IsDigit(c)
    ensures Distinct(AsciiLowercase) && Distinct(AsciiUppercase) && Distinct(Digits)
    ensures |AsciiLowercase| == 26 && |AsciiUppercase| == 26 && |Digits| == 10
  {
    CharRangeContents('a', 'z');
    CharRangeContents('A', 'Z');
    CharRangeContents('0', '9');
  }

  /** Punctuation is the printable non-alphanumeric ASCII characters from '!' to '~'. */
  lemma PunctuationContents()
    ensures forall c :: c in Punctuation <==>
      ('!' <= c <= '~' && !IsLower(c) && !IsUpper(c) && !IsDigit(c))
    ensures Distinct(Punctuation)
    ensures |Punctuation| == 32
  {
    var p1, p2, p3, p4 := CharRange('!', '/'), CharRange(':', '@'), CharRange('[', '`'), CharRange('{', '~');
    CharRangeContents('!', '/');
    CharRangeContents(':', '@');
    CharRangeContents('[', '`');
    CharRangeContents('{', '~');
    DistinctConcat(p1, p2);
    DistinctConcat(p1 + p2, p3);
    DistinctConcat(p1 + p2 + p3, p4);
  }

  /**
   * The maximum tier is the printable characters with the six whitespace
   * characters removed: digits, letters and punctuation, in that order.
   */
  lemma MaximumCharset()
    ensures Charset(Maximum) == Digits + AsciiLetters + Punctuation
    ensures forall c :: c in Charset(Maximum) <==> '!' <= c <= '~'
  {
    var visible := Digits + AsciiLetters + Punctuation;
    VisibleContents();
    assert Printable == visible + Whitespace;
    WithoutConcat(visible, Whitespace, Whitespace);
    WhitespaceInvisible();
    WithoutDisjoint(visible, Whitespace);
    WithoutCovered(Whitespace, Whitespace);
    assert Charset(Maximum) == visible + [];
  }

  lemma WhitespaceInvisible()
    ensures forall c :: c in Whitespace ==> c < '!'
  {
  }

  lemma VisibleContents()
    ensures forall c :: c in Digits + AsciiLetters + Punctuation <==> '!' <= c <= '~'
  {
    ClassRanges();
    PunctuationContents();
    forall c ensures c in Digits + AsciiLetters + Punctuation <==> '!' <= c <= '~' {
      assert c in Digits + AsciiLetters + Punctuation <==> c in Digits || c in AsciiLowercase || c in AsciiUppercase || c in Punctuation;
    }
  }

  /** The tier sizes are 62, 76 and 94. */
  lemma CharsetLength(t: Tier)
    ensures |Charset(t)| == CharsetSize(t)
  {
    ClassRanges();
    if t == Maximum {
      MaximumCharset();
      PunctuationContents();
    }
  }

  /** No tier lists a character twice, so `set(charset)` has the same size. */
  lemma CharsetDistinct(t: Tier)
    ensures Distinct(Charset(t))
  {
    ClassRanges();
    DistinctConcat(AsciiLowercase, AsciiUppercase);
    DistinctConcat(AsciiLetters, Digits);
    match t
    case Simple =>
    case Strong =>
      assert forall c :: c in StrongSymbols ==> !IsLower(c) && !IsUpper(c) && !IsDigit(c);
      assert Distinct(StrongSymbols);
      DistinctConcat(AsciiLetters + Digits, StrongSymbols);
    case Maximum =>
      MaximumCharset();
      PunctuationContents();
      DistinctConcat(Digits, AsciiLetters);
      DistinctConcat(Digits + AsciiLetters, Punctuation);
  }

  /** Every tier contains every lowercase letter, uppercase letter and digit. */
  lemma CharsetCoversClasses(t: Tier)
    ensures forall c :: IsLower(c) || IsUpper(c) || IsDigit(c) ==> c in Charset(t)
  {
    ClassRanges();
    if t == Maximum {
      MaximumCharset();
    }
  }
}
