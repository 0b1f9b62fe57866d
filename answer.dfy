/** The answer normaliser and judge of the trivia gate (src/components/Trivia.tsx:162-170).

    The normaliser is the chain lowercase, trim, Unicode NFD decomposition, then deletion of
    every combining diacritical mark U+0300..U+036F.  Lowercasing and decomposition are given
    by tables that are exact on Latin-1 and the identity elsewhere; trimming uses the exact
    set of characters that ECMAScript's String.prototype.trim removes. */
module Answer {

  // ---------------------------------------------------------------------------------------
  // Character classes

  /** The characters trim() removes: ECMAScript WhiteSpace (TAB, VT, FF, ZWNBSP and every
      space separator Zs) and LineTerminator (LF, CR, LS, PS). */
  predicate IsSpace(c: char) {
    c == '\t' || c == '\U{B}' || c == '\U{C}' || c == '\n' || c == '\r'
    || c == ' ' || c == '\U{A0}' || c == '\U{1680}' || ('\U{2000}' <= c <= '\U{200A}')
    || c == '\U{2028}' || c == '\U{2029}' || c == '\U{202F}' || c == '\U{205F}'
    || c == '\U{3000}' || c == '\U{FEFF}'
  }

  /** An unaccented ASCII letter. */
  predicate IsBaseLetter(c: char) {
    'A' <= c <= 'Z' || 'a' <= c <= 'z'
  }

  /** The class U+0300..U+036F of the regular expression: the combining diacritical marks. */
  predicate IsMark(c: char) {
    '\U{300}' <= c <= '\U{36F}'
  }

  // ---------------------------------------------------------------------------------------
  // toLowerCase()

  /** Lowercase of one character: A-Z and the Latin-1 capitals U+00C0..U+00DE (except the
      multiplication sign U+00D7) move down by 0x20; everything else is unchanged. */
  function LowerChar(c: char): (r: char)
    ensures 'A' <= c <= 'Z' ==> r as int == c as int + 32
    ensures '\U{C0}' <= c <= '\U{DE}' && c != '\U{D7}' ==> r as int == c as int + 32
    ensures !('A' <= c <= 'Z') && !('\U{C0}' <= c <= '\U{DE}' && c != '\U{D7}') ==> r == c
  {
    if 'A' <= c <= 'Z' || ('\U{C0}' <= c <= '\U{DE}' && c != '\U{D7}') then
      (c as int + 32) as char
    else
      c
  }

  function Lower(s: string): (r: string)
    ensures |r| == |s|
    ensures forall i :: 0 <= i < |s| ==> r[i] == LowerChar(s[i])
  {
    seq(|s|, i requires 0 <= i < |s| => LowerChar(s[i]))
  }

  /** Lowercasing twice is lowercasing once: no lowered character is a capital. */
  lemma LowerIdempotent(s: string)
    ensures Lower(Lower(s)) == Lower(s)
  {
    forall i | 0 <= i < |s|
      ensures Lower(Lower(s))[i] == Lower(s)[i]
    {
      var c := s[i];
      assert LowerChar(LowerChar(c)) == LowerChar(c);
    }
  }

  lemma LowerAppend(a: string, b: string)
    ensures Lower(a + b) == Lower(a) + Lower(b)
  {
    assert forall i :: 0 <= i < |a + b| ==> Lower(a + b)[i] == (Lower(a) + Lower(b))[i];
  }

  // ---------------------------------------------------------------------------------------
  // trim()

  /** The number of whitespace characters at the front of s. */
  function LeadingSpace(s: string): (n: nat)
    ensures n <= |s|
  {
    if s == [] || !IsSpace(s[0]) then 0 else 1 + LeadingSpace(s[1..])
  }

  /** The leading count stops at the first character that is not white space. */
  lemma {:induction false} LeadingSpaceSpec(s: string)
    ensures forall i :: 0 <= i < LeadingSpace(s) ==> IsSpace(s[i])
    ensures LeadingSpace(s) < |s| ==> !IsSpace(s[LeadingSpace(s)])
  {
    if s != [] && IsSpace(s[0]) {
      LeadingSpaceSpec(s[1..]);
      assert forall i :: 1 <= i < |s| ==> s[i] == s[1..][i - 1];
    }
  }

  /** The number of whitespace characters at the back of s. */
  function TrailingSpace(s: string): (n: nat)
    ensures n <= |s|
  {
    if s == [] || !IsSpace(s[|s| - 1]) then 0 else 1 + TrailingSpace(s[..|s| - 1])
  }

  /** The trailing count stops at the last character that is not white space. */
  lemma {:induction false} TrailingSpaceSpec(s: string)
    ensures forall i :: |s| - TrailingSpace(s) <= i < |s| ==> IsSpace(s[i])
    ensures TrailingSpace(s) < |s| ==> !IsSpace(s[|s| - TrailingSpace(s) - 1])
  {
    if s != [] && IsSpace(s[|s| - 1]) {
      TrailingSpaceSpec(s[..|s| - 1]);
      assert forall i :: 0 <= i < |s| - 1 ==> s[i] == s[..|s| - 1][i];
    }
  }

  /** s without its leading and trailing whitespace. */
  function Trim(s: string): (r: string)
    ensures |r| <= |s|
  {
    var lo := LeadingSpace(s);
    var n := TrailingSpace(s[lo..]);
    s[lo..|s| - n]
  }

  function TrimStart(s: string): (lo: nat)
    ensures lo <= |s|
  {
    LeadingSpace(s)
  }

  /** trim() returns the slice s[lo..hi] where s[..lo] and s[hi..] are all whitespace and
      the slice itself neither starts nor ends with whitespace. */
  lemma TrimSpec(s: string)
    ensures TrimStart(s) + |Trim(s)| <= |s|
    ensures Trim(s) == s[TrimStart(s)..TrimStart(s) + |Trim(s)|]
    ensures forall i :: 0 <= i < TrimStart(s) ==> IsSpace(s[i])
    ensures forall i :: TrimStart(s) + |Trim(s)| <= i < |s| ==> IsSpace(s[i])
    ensures Trim(s) != [] ==> !IsSpace(Trim(s)[0]) && !IsSpace(Trim(s)[|Trim(s)| - 1])
  {
    var lo := LeadingSpace(s);
    var u := s[lo..];
    var n := TrailingSpace(u);
    var t := Trim(s);
    assert t == s[lo..|s| - n] && |t| == |u| - n;
    assert forall i :: 0 <= i < lo ==> IsSpace(s[i]) by {
      LeadingSpaceSpec(s);
    }
    assert forall i :: lo + |t| <= i < |s| ==> IsSpace(s[i]) by {
      TrailingSpaceSpec(u);
      assert forall i :: lo + |t| <= i < |s| ==> s[i] == u[i - lo];
    }
    assert t != [] ==> !IsSpace(t[0]) by {
      LeadingSpaceSpec(s);
      assert t != [] ==> t[0] == s[lo];
    }
    assert t != [] ==> !IsSpace(t[|t| - 1]) by {
      TrailingSpaceSpec(u);
      assert t != [] ==> t[|t| - 1] == u[|u| - n - 1];
    }
  }

  /** A string with a character that is not white space is not blank. */
  lemma NotBlank(s: string, i: nat)
    requires i < |s| && !IsSpace(s[i])
    ensures Trim(s) != []
  {
    TrimSpec(s);
  }

  /** trim() is determined by where the white space stops: if s[..lo] and s[hi..] are all
      white space and s[lo..hi] neither starts nor ends with it, the trimmed text is
      s[lo..hi]. */
  lemma TrimExact(s: string, lo: nat, hi: nat)
    requires lo <= hi <= |s|
    requires forall i :: 0 <= i < lo ==> IsSpace(s[i])
    requires forall i :: hi <= i < |s| ==> IsSpace(s[i])
    requires lo < hi ==> !IsSpace(s[lo]) && !IsSpace(s[hi - 1])
    ensures Trim(s) == s[lo..hi]
  {
    var r, l := Trim(s), TrimStart(s);
    TrimSpec(s);
    if lo < hi {
      assert l == lo;
      NotBlank(s, lo);
      assert l + |r| == hi;
    }
  }

  /** A character that is not white space lies inside the trimmed part. */
  lemma TrimBounds(s: string, i: nat)
    requires i < |s| && !IsSpace(s[i])
    ensures TrimStart(s) <= i < TrimStart(s) + |Trim(s)|
  {
    TrimSpec(s);
  }

  /** Whatever trim() removes, it never cuts into a stretch that starts and ends with a
      non-space: such a stretch stays a contiguous part of the trimmed string. */
  lemma TrimKeepsInner(s: string, i: int, j: int)
    requires 0 <= i < j <= |s|
    requires !IsSpace(s[i]) && !IsSpace(s[j - 1])
    ensures TrimStart(s) <= i && OccursAt(s[i..j], Trim(s), i - TrimStart(s))
    ensures IsInfix(s[i..j], Trim(s))
  {
    TrimSpec(s);
    TrimBounds(s, i);
    TrimBounds(s, j - 1);
    SliceInfix(s, TrimStart(s), TrimStart(s) + |Trim(s)|, i, j);
  }

  /** A slice of s inside s[lo..hi] is a contiguous part of it. */
  lemma SliceInfix(s: string, lo: nat, hi: nat, i: nat, j: nat)
    requires lo <= i <= j <= hi <= |s|
    ensures OccursAt(s[i..j], s[lo..hi], i - lo)
  {
    var t := s[lo..hi];
    assert forall k :: i <= k < j ==> t[k - lo] == s[k];
    assert t[i - lo..j - lo] == s[i..j];
  }

  // ---------------------------------------------------------------------------------------
  // normalize('NFD')

  /** The Latin-1 letters with a canonical decomposition: U+00C0..U+00FF except Æ, Ð, ×, Ø,
      Þ, ß, æ, ð, ÷, ø and þ. */
  predicate Precomposed(c: char) {
    '\U{C0}' <= c <= '\U{FF}'
    && c != '\U{C6}' && c != '\U{D0}' && c != '\U{D7}' && c != '\U{D8}' && c != '\U{DE}'
    && c != '\U{DF}' && c != '\U{E6}' && c != '\U{F0}' && c != '\U{F7}' && c != '\U{F8}'
    && c != '\U{FE}'
  }

  /** The base letter of a precomposed capital U+00C0..U+00DD. */
  function CapitalBase(c: char): (b: char)
    ensures 'A' <= b <= 'Z'
  {
    if c <= '\U{C5}' then 'A'
    else if c <= '\U{C7}' then 'C'
    else if c <= '\U{CB}' then 'E'
    else if c <= '\U{CF}' then 'I'
    else if c <= '\U{D1}' then 'N'
    else if c <= '\U{D6}' then 'O'
    else if c <= '\U{DC}' then 'U'
    else 'Y'
  }

  /** The unaccented letter a precomposed Latin-1 letter is built on: the small letters
      U+00E0..U+00FD lie 0x20 above their capitals, and ÿ is y. */
  function BaseOf(c: char): (b: char)
    requires Precomposed(c)
    ensures IsBaseLetter(b)
    ensures 'a' <= b <= 'z' <==> c >= '\U{E0}'
  {
    if c == '\U{FF}' then 'y'
    else if c < '\U{E0}' then CapitalBase(c)
    else (CapitalBase((c as int - 32) as char) as int + 32) as char
  }

  /** The combining mark of a precomposed capital U+00C0..U+00DD: grave U+0300, acute
      U+0301, circumflex U+0302, tilde U+0303, diaeresis U+0308, ring U+030A or cedilla
      U+0327, in the order the letters of each base follow in the Latin-1 table. */
  function CapitalMark(c: char): (m: char)
    requires Precomposed(c) && c <= '\U{DD}'
    ensures IsMark(m)
  {
    if c <= '\U{C5}' then "\U{300}\U{301}\U{302}\U{303}\U{308}\U{30A}"[c as int - 0xC0]
    else if c <= '\U{C7}' then '\U{327}'
    else if c <= '\U{CB}' then "\U{300}\U{301}\U{302}\U{308}"[c as int - 0xC8]
    else if c <= '\U{CF}' then "\U{300}\U{301}\U{302}\U{308}"[c as int - 0xCC]
    else if c <= '\U{D1}' then '\U{303}'
    else if c <= '\U{D6}' then "\U{300}\U{301}\U{302}\U{303}\U{308}"[c as int - 0xD2]
    else if c <= '\U{DC}' then "\U{300}\U{301}\U{302}\U{308}"[c as int - 0xD9]
    else '\U{301}'
  }

  /** The combining mark a precomposed Latin-1 letter carries: the small letters carry the
      mark of the capital 0x20 below them, and ÿ carries the diaeresis. */
  function MarkOf(c: char): (m: char)
    requires Precomposed(c)
    ensures IsMark(m)
  {
    if c == '\U{FF}' then '\U{308}'
    else if c < '\U{E0}' then CapitalMark(c)
    else CapitalMark((c as int - 32) as char)
  }

  /** Canonical decomposition of one character.  Every precomposed Latin-1 letter splits into
      its base letter and one combining mark; every other character is its own
      decomposition. */
  function DecomposeChar(c: char): (r: string)
    ensures 1 <= |r| <= 2
    ensures |r| == 2 <==> Precomposed(c)
    ensures |r| == 1 ==> r == [c]
    ensures |r| == 2 ==> r[0] == BaseOf(c) && IsMark(r[1])
    ensures |r| == 2 ==> r[1] == MarkOf(c)
  {
    match c
    case 'À' => "A\U{300}"  case 'Á' => "A\U{301}"  case 'Â' => "A\U{302}"  case 'Ã' => "A\U{303}"
    case 'Ä' => "A\U{308}"  case 'Å' => "A\U{30A}"  case 'Ç' => "C\U{327}"  case 'È' => "E\U{300}"
    case 'É' => "E\U{301}"  case 'Ê' => "E\U{302}"  case 'Ë' => "E\U{308}"  case 'Ì' => "I\U{300}"
    case 'Í' => "I\U{301}"  case 'Î' => "I\U{302}"  case 'Ï' => "I\U{308}"  case 'Ñ' => "N\U{303}"
    case 'Ò' => "O\U{300}"  case 'Ó' => "O\U{301}"  case 'Ô' => "O\U{302}"  case 'Õ' => "O\U{303}"
    case 'Ö' => "O\U{308}"  case 'Ù' => "U\U{300}"  case 'Ú' => "U\U{301}"  case 'Û' => "U\U{302}"
    case 'Ü' => "U\U{308}"  case 'Ý' => "Y\U{301}"  case 'à' => "a\U{300}"  case 'á' => "a\U{301}"
    case 'â' => "a\U{302}"  case 'ã' => "a\U{303}"  case 'ä' => "a\U{308}"  case 'å' => "a\U{30A}"
    case 'ç' => "c\U{327}"  case 'è' => "e\U{300}"  case 'é' => "e\U{301}"  case 'ê' => "e\U{302}"
    case 'ë' => "e\U{308}"  case 'ì' => "i\U{300}"  case 'í' => "i\U{301}"  case 'î' => "i\U{302}"
    case 'ï' => "i\U{308}"  case 'ñ' => "n\U{303}"  case 'ò' => "o\U{300}"  case 'ó' => "o\U{301}"
    case 'ô' => "o\U{302}"  case 'õ' => "o\U{303}"  case 'ö' => "o\U{308}"  case 'ù' => "u\U{300}"
    case 'ú' => "u\U{301}"  case 'û' => "u\U{302}"  case 'ü' => "u\U{308}"  case 'ý' => "y\U{301}"
    case 'ÿ' => "y\U{308}"
    case _ => [c]
  }

  /** The decomposition of a character that is not a mark starts with a non-mark, the
      character itself outside Latin-1, and keeps the case of a letter that splits. */
  lemma DecomposeCharCase(c: char)
    ensures !IsMark(c) ==> !IsMark(DecomposeChar(c)[0])
    ensures !('\U{C0}' <= c <= '\U{FF}') ==> DecomposeChar(c) == [c]
    ensures |DecomposeChar(c)| == 2 ==> (LowerChar(c) == c <==> 'a' <= DecomposeChar(c)[0] <= 'z')
  {
  }

  /** The strings f gives for the characters of s, one after the other. */
  function FlatMap(f: char -> string, s: string): (r: string)
    decreases |s|
  {
    if s == [] then [] else f(s[0]) + FlatMap(f, s[1..])
  }

  lemma {:induction false} FlatMapLength(f: char -> string, s: string)
    requires forall c :: 1 <= |f(c)| <= 2
    ensures |s| <= |FlatMap(f, s)| <= 2 * |s|
    decreases |s|
  {
    if s != [] {
      FlatMapLength(f, s[1..]);
    }
  }

  lemma {:induction false} FlatMapAppend(f: char -> string, a: string, b: string)
    ensures FlatMap(f, a + b) == FlatMap(f, a) + FlatMap(f, b)
    decreases |a|
  {
    if a == [] {
      assert a + b == b;
    } else {
      assert (a + b)[0] == a[0];
      assert (a + b)[1..] == a[1..] + b;
      FlatMapAppend(f, a[1..], b);
    }
  }

  /** A map that keeps every character of s keeps s. */
  lemma {:induction false} FlatMapIdentity(f: char -> string, s: string)
    requires forall i :: 0 <= i < |s| ==> f(s[i]) == [s[i]]
    ensures FlatMap(f, s) == s
    decreases |s|
  {
    if s != [] {
      assert f(s[0]) == [s[0]];
      FlatMapIdentity(f, s[1..]);
    }
  }

  /** The decomposition of a string, character by character. */
  function Decompose(s: string): (r: string)
    ensures |s| <= |r| <= 2 * |s|
  {
    FlatMapLength(DecomposeChar, s);
    FlatMap(DecomposeChar, s)
  }

  lemma DecomposeAppend(a: string, b: string)
    ensures Decompose(a + b) == Decompose(a) + Decompose(b)
  {
    FlatMapAppend(DecomposeChar, a, b);
  }

  // ---------------------------------------------------------------------------------------
  // the global replace of the class U+0300..U+036F by nothing

  /** s with every combining mark deleted (the regular expression is global, so all of them
      go, not only the first). */
  function StripMarks(s: string): (r: string)
    ensures |r| <= |s|
    ensures forall i :: 0 <= i < |r| ==> !IsMark(r[i])
    ensures (forall i :: 0 <= i < |s| ==> !IsMark(s[i])) ==> r == s
  {
    if s == [] then []
    else if IsMark(s[0]) then StripMarks(s[1..])
    else [s[0]] + StripMarks(s[1..])
  }

  lemma {:induction false} StripMarksAppend(a: string, b: string)
    ensures StripMarks(a + b) == StripMarks(a) + StripMarks(b)
  {
    if a == [] {
      assert a + b == b;
    } else {
      assert (a + b)[1..] == a[1..] + b;
      StripMarksAppend(a[1..], b);
    }
  }

  /** No character other than a mark is lost or added: each occurs as often after the
      deletion as before. */
  lemma {:induction false} StripMarksCounts(s: string)
    ensures forall c :: !IsMark(c) ==> multiset(StripMarks(s))[c] == multiset(s)[c]
  {
    if s != [] {
      StripMarksCounts(s[1..]);
      assert s == [s[0]] + s[1..];
    }
  }

  /** Every character that is not a mark is kept, at the place given by the characters kept
      before it, so the kept characters appear in their original order. */
  lemma StripMarksKeeps(s: string, i: nat, j: nat)
    requires i < j < |s| && !IsMark(s[i]) && !IsMark(s[j])
    ensures |StripMarks(s[..i])| < |StripMarks(s[..j])| < |StripMarks(s)|
    ensures StripMarks(s)[|StripMarks(s[..i])|] == s[i]
    ensures StripMarks(s)[|StripMarks(s[..j])|] == s[j]
  {
    KeptAt(s, i);
    KeptAt(s, j);
    KeptBefore(s, i, j);
  }

  lemma KeptBefore(s: string, i: nat, j: nat)
    requires i < j <= |s| && !IsMark(s[i])
    ensures |StripMarks(s[..i])| < |StripMarks(s[..j])|
  {
    var p := s[..j];
    assert p[i] == s[i] && p[..i] == s[..i];
    KeptAt(p, i);
  }

  lemma KeptAt(s: string, i: nat)
    requires i < |s| && !IsMark(s[i])
    ensures StripMarks(s) == StripMarks(s[..i]) + [s[i]] + StripMarks(s[i + 1..])
    ensures |StripMarks(s[..i])| < |StripMarks(s)| && StripMarks(s)[|StripMarks(s[..i])|] == s[i]
  {
    var x, c, y := s[..i], s[i], s[i + 1..];
    assert s == x + [c] + y;
    StripMarksAppend(x + [c], y);
    StripMarksAppend(x, [c]);
    assert StripMarks([c]) == [c] + StripMarks([]);
  }

  // ---------------------------------------------------------------------------------------
  // normalizeAnswer and checkAnswer's test

  /** normalizeAnswer: lowercase, trim, decompose, strip the marks, in this order. */
  function Normalize(text: string): (r: string)
    ensures forall i :: 0 <= i < |r| ==> !IsMark(r[i])
  {
    StripMarks(Decompose(Trim(Lower(text))))
  }

  /** Case does not matter: lowercasing first changes nothing. */
  lemma NormalizeIgnoresCase(s: string)
    ensures Normalize(Lower(s)) == Normalize(s)
  {
    LowerIdempotent(s);
  }

  /** Blanks around a text do not matter to trim(). */
  lemma TrimIgnoresBlanks(a: string, s: string, b: string)
    requires forall i :: 0 <= i < |a| ==> IsSpace(a[i])
    requires forall i :: 0 <= i < |b| ==> IsSpace(b[i])
    ensures Trim(a + s + b) == Trim(s)
  {
    var u := a + s + b;
    var l, t := TrimStart(s), Trim(s);
    var lo, hi := |a| + l, |a| + l + |t|;
    assert hi <= |u| && u[lo..hi] == t by {
      TrimSpec(s);
      SliceOfSlice(u, |a|, |a| + |s|, l, l + |t|);
      assert u[|a|..|a| + |s|] == s;
    }
    assert forall i :: 0 <= i < lo ==> IsSpace(u[i]) by {
      TrimSpec(s);
      BlanksBefore(a, s, b, l);
    }
    assert forall i :: hi <= i < |u| ==> IsSpace(u[i]) by {
      TrimSpec(s);
      BlanksAfter(a, s, b, l + |t|);
    }
    assert lo < hi ==> !IsSpace(u[lo]) && !IsSpace(u[hi - 1]) by {
      TrimSpec(s);
      assert lo < hi ==> u[lo] == t[0] && u[hi - 1] == t[|t| - 1];
    }
    TrimExact(u, lo, hi);
  }

  lemma BlanksBefore(a: string, s: string, b: string, l: nat)
    requires l <= |s|
    requires forall i :: 0 <= i < |a| ==> IsSpace(a[i])
    requires forall i :: 0 <= i < l ==> IsSpace(s[i])
    ensures forall i :: 0 <= i < |a| + l ==> IsSpace((a + s + b)[i])
  {
    var u := a + s + b;
    forall i | 0 <= i < |a| + l
      ensures IsSpace(u[i])
    {
      if i < |a| {
        assert u[i] == a[i];
      } else {
        assert u[i] == s[i - |a|];
      }
    }
  }

  lemma BlanksAfter(a: string, s: string, b: string, h: nat)
    requires h <= |s|
    requires forall i :: 0 <= i < |b| ==> IsSpace(b[i])
    requires forall i :: h <= i < |s| ==> IsSpace(s[i])
    ensures forall i :: |a| + h <= i < |a + s + b| ==> IsSpace((a + s + b)[i])
  {
    var u := a + s + b;
    forall i | |a| + h <= i < |u|
      ensures IsSpace(u[i])
    {
      if i < |a| + |s| {
        assert u[i] == s[i - |a|];
      } else {
        assert u[i] == b[i - |a| - |s|];
      }
    }
  }

  /** Blanks around an answer do not matter, whatever the answer. */
  lemma NormalizeIgnoresBlanks(a: string, s: string, b: string)
    requires forall i :: 0 <= i < |a| ==> IsSpace(a[i])
    requires forall i :: 0 <= i < |b| ==> IsSpace(b[i])
    ensures Normalize(a + s + b) == Normalize(s)
  {
    LowerAppend(a + s, b);
    LowerAppend(a, s);
    TrimIgnoresBlanks(Lower(a), Lower(s), Lower(b));
  }

  /** An accented letter reads as its base letter once its mark is deleted. */
  lemma AccentStripped(c: char)
    requires !IsMark(c)
    ensures StripMarks(DecomposeChar(c)) == [DecomposeChar(c)[0]]
    ensures Precomposed(c) ==> StripMarks(DecomposeChar(c)) == [BaseOf(c)]
    ensures !Precomposed(c) ==> StripMarks(DecomposeChar(c)) == [c]
  {
    var r := DecomposeChar(c);
    if |r| == 2 {
      assert r == [r[0]] + [r[1]];
      StripMarksAppend([r[0]], [r[1]]);
      assert [r[1]][1..] == [];
    }
  }

  /** What decomposition followed by the deletion of the marks leaves of one character: a
      mark disappears, a precomposed letter becomes its base letter, anything else stays. */
  function UnaccentChar(c: char): (r: string)
    ensures |r| <= 1
  {
    if IsMark(c) then [] else if Precomposed(c) then [BaseOf(c)] else [c]
  }

  lemma StripDecomposeChar(c: char)
    ensures StripMarks(DecomposeChar(c)) == UnaccentChar(c)
  {
    if IsMark(c) {
      assert DecomposeChar(c) == [c];
      assert StripMarks([c]) == StripMarks([]);
    } else {
      AccentStripped(c);
    }
  }

  /** Decomposing and then deleting every mark is the character-by-character unaccenting,
      for every text. */
  lemma {:induction false} StripDecompose(s: string)
    ensures StripMarks(Decompose(s)) == FlatMap(UnaccentChar, s)
    decreases |s|
  {
    if s != [] {
      assert Decompose(s) == DecomposeChar(s[0]) + Decompose(s[1..]);
      StripMarksAppend(DecomposeChar(s[0]), Decompose(s[1..]));
      StripDecomposeChar(s[0]);
      StripDecompose(s[1..]);
    }
  }

  /** The normal form is the unaccented, trimmed, lowercased text. */
  lemma NormalizeUnaccents(text: string)
    ensures Normalize(text) == FlatMap(UnaccentChar, Trim(Lower(text)))
  {
    StripDecompose(Trim(Lower(text)));
  }

  /** needle occurs in hay starting at index i. */
  predicate OccursAt(needle: string, hay: string, i: int) {
    0 <= i <= |hay| - |needle| && hay[i..i + |needle|] == needle
  }

  /** needle occurs as a contiguous part of hay. */
  ghost predicate IsInfix(needle: string, hay: string) {
    exists i :: OccursAt(needle, hay, i)
  }

  /** String.prototype.includes: hay contains needle, searched from the front. */
  function Includes(hay: string, needle: string): (r: bool)
    ensures needle <= hay ==> r
    ensures r ==> |needle| <= |hay|
    decreases |hay|
  {
    if needle <= hay then true
    else if hay == [] then false
    else Includes(hay[1..], needle)
  }

  lemma {:induction false} IncludesIsInfix(hay: string, needle: string)
    ensures Includes(hay, needle) <==> IsInfix(needle, hay)
    decreases |hay|
  {
    if needle <= hay {
      assert OccursAt(needle, hay, 0);
    } else if hay == [] {
    } else {
      IncludesIsInfix(hay[1..], needle);
      if IsInfix(needle, hay) {
        var i :| OccursAt(needle, hay, i);
        assert i != 0;
        OccursShift(needle, hay, i - 1);
      }
      if IsInfix(needle, hay[1..]) {
        var i :| OccursAt(needle, hay[1..], i);
        OccursShift(needle, hay, i);
      }
    }
  }

  /** An occurrence in the tail of hay is an occurrence in hay one place further on. */
  lemma OccursShift(needle: string, hay: string, i: int)
    requires hay != [] && 0 <= i
    ensures OccursAt(needle, hay[1..], i) <==> OccursAt(needle, hay, i + 1)
  {
    if i + |needle| <= |hay| - 1 {
      assert hay[1..][i..i + |needle|] == hay[i + 1..i + 1 + |needle|];
    }
  }

  lemma InfixOfConcat(x: string, m: string, y: string)
    ensures IsInfix(m, x + m + y)
  {
    assert OccursAt(m, x + m + y, |x|);
  }

  /** Decompose and StripMarks keep a contiguous part contiguous. */
  lemma PipelineKeepsInfix(t: string, s: string)
    requires IsInfix(t, s)
    ensures IsInfix(StripMarks(Decompose(t)), StripMarks(Decompose(s)))
  {
    var i :| OccursAt(t, s, i);
    var x, y := s[..i], s[i + |t|..];
    assert s == x + t + y;
    DecomposeAppend(x + t, y);
    DecomposeAppend(x, t);
    StripMarksAppend(Decompose(x) + Decompose(t), Decompose(y));
    StripMarksAppend(Decompose(x), Decompose(t));
    InfixOfConcat(StripMarks(Decompose(x)), StripMarks(Decompose(t)), StripMarks(Decompose(y)));
  }

  /** checkAnswer's test (line 170): the normalised input contains the normalised expected
      answer.  There is no test in the other direction. */
  predicate Accepts(input: string, expected: string)
    ensures Normalize(expected) <= Normalize(input) ==> Accepts(input, expected)
    ensures Accepts(input, expected) ==> |Normalize(expected)| <= |Normalize(input)|
  {
    Includes(Normalize(input), Normalize(expected))
  }

  lemma AcceptsIff(input: string, expected: string)
    ensures Accepts(input, expected) <==> IsInfix(Normalize(expected), Normalize(input))
  {
    IncludesIsInfix(Normalize(input), Normalize(expected));
  }

  /** One-directional: an input whose normal form is shorter than the expected answer's is
      rejected, however much of the answer it spells out. */
  lemma ShorterInputRejected(input: string, expected: string)
    requires |Normalize(input)| < |Normalize(expected)|
    ensures !Accepts(input, expected)
  {
    AcceptsIff(input, expected);
  }

  /** Lenient on extra words: the expected answer with anything before and after it is
      accepted. */
  lemma ExtraWordsAccepted(before: string, expected: string, after: string)
    ensures Accepts(before + expected + after, expected)
  {
    LowerAppend(before + expected, after);
    LowerAppend(before, expected);
    var s := Lower(before + expected + after);
    var e := Lower(expected);
    assert s == Lower(before) + e + Lower(after);
    TrimInside(Lower(before), e, Lower(after));
    PipelineKeepsInfix(Trim(e), Trim(s));
    AcceptsIff(before + expected + after, expected);
  }

  /** Trimming a part of a string gives a contiguous part of the trimmed whole. */
  lemma TrimInside(x: string, e: string, y: string)
    ensures IsInfix(Trim(e), Trim(x + e + y))
  {
    var s, t := x + e + y, Trim(e);
    if t == [] {
      assert OccursAt(t, Trim(s), 0);
    } else {
      var a := TrimStart(e);
      var lo := |x| + a;
      TrimSpec(e);
      assert t == e[a..a + |t|];
      assert s[|x|..|x| + |e|] == e;
      SliceOfSlice(s, |x|, |x| + |e|, a, a + |t|);
      InnerPiece(s, lo, t);
    }
  }

  /** A piece of s that starts and ends with a non-space survives the trim of s. */
  lemma InnerPiece(s: string, lo: nat, t: string)
    requires t != [] && lo + |t| <= |s| && s[lo..lo + |t|] == t
    requires !IsSpace(t[0]) && !IsSpace(t[|t| - 1])
    ensures IsInfix(t, Trim(s))
  {
    assert s[lo] == t[0] && s[lo + |t| - 1] == t[|t| - 1];
    TrimKeepsInner(s, lo, lo + |t|);
  }

  lemma SliceOfSlice(s: string, lo: nat, hi: nat, a: nat, b: nat)
    requires lo <= hi <= |s| && a <= b <= hi - lo
    ensures s[lo..hi][a..b] == s[lo + a..lo + b]
  {
    assert forall k :: 0 <= k < b - a ==> s[lo..hi][a..b][k] == s[lo + a + k];
  }

  // ---------------------------------------------------------------------------------------
  // Worked examples

  /** Lower-case ASCII letters and blanks. */
  predicate IsPlain(c: char) {
    'a' <= c <= 'z' || c == ' '
  }

  lemma DecomposePlain(s: string)
    requires forall i :: 0 <= i < |s| ==> IsPlain(s[i])
    ensures Decompose(s) == s
  {
    FlatMapIdentity(DecomposeChar, s);
  }

  /** A string of lower-case ASCII letters and inner blanks is its own normal form; all three
      expected answers of the trivia are of this kind. */
  lemma PlainIsNormal(s: string)
    requires forall i :: 0 <= i < |s| ==> IsPlain(s[i])
    requires s != [] ==> s[0] != ' ' && s[|s| - 1] != ' '
    ensures Normalize(s) == s
  {
    assert forall i :: 0 <= i < |s| ==> LowerChar(s[i]) == s[i];
    assert Lower(s) == s;
    TrimExact(s, 0, |s|);
    assert s[0..|s|] == s;
    DecomposePlain(s);
    assert forall i :: 0 <= i < |s| ==> !IsMark(s[i]);
  }

  lemma LowerCafe(s: string, r: string)
    requires s == "CAFÉ " && r == "café "
    ensures Lower(s) == r
  {
    assert LowerChar('C') == 'c' && LowerChar('A') == 'a' && LowerChar('F') == 'f';
    assert LowerChar('É') == 'é' && LowerChar(' ') == ' ';
  }

  lemma TrimCafe(s: string, r: string)
    requires s == "café " && r == "café"
    ensures Trim(s) == r
  {
    TrimExact(s, 0, 4);
  }

  lemma DecomposeCafe(s: string, r: string)
    requires s == "café" && r == "cafe\U{301}"
    ensures Decompose(s) == r
  {
    DecomposePlain("caf");
    DecomposeAppend("caf", "é");
    assert "caf" + "é" == s;
    assert DecomposeChar('é') == "e\U{301}";
    assert "caf" + "e\U{301}" == r;
  }

  /** A mark after mark-free text is deleted and the text is kept. */
  lemma StripTrailingMark(s: string, m: char)
    requires forall i :: 0 <= i < |s| ==> !IsMark(s[i])
    requires IsMark(m)
    ensures StripMarks(s + [m]) == s
  {
    StripMarksAppend(s, [m]);
    assert [m][1..] == [];
  }

  /** Case, surrounding blanks and accents do not matter: "CAFÉ " and "cafe" agree. */
  lemma AccentsAndCaseIgnored(input: string, expected: string)
    requires input == "CAFÉ " && expected == "cafe"
    ensures Normalize(input) == Normalize(expected) == expected
  {
    PlainIsNormal(expected);
    LowerCafe(input, "café ");
    TrimCafe("café ", "café");
    DecomposeCafe("café", "cafe\U{301}");
    assert "cafe" + ['\U{301}'] == "cafe\U{301}";
    StripTrailingMark("cafe", '\U{301}');
  }

  lemma LoneMarkLower(s: string)
    requires s == "a \U{301}"
    ensures Lower(s) == s
  {
    assert forall i :: 0 <= i < |s| ==> LowerChar(s[i]) == s[i];
  }

  lemma LoneMarkTrim(s: string)
    requires s == "a \U{301}"
    ensures Trim(s) == s
  {
    TrimExact(s, 0, 3);
    assert s[0..3] == s;
  }

  lemma LoneMarkDecompose(s: string)
    requires s == "a \U{301}"
    ensures Decompose(s) == s
  {
    DecomposePlain("a ");
    DecomposeAppend("a ", "\U{301}");
    assert "a " + "\U{301}" == s;
  }

  lemma TrailingBlankNormal(s: string, r: string)
    requires s == "a " && r == "a"
    ensures Normalize(s) == r
  {
    assert Lower(s) == s;
    TrimExact(s, 0, 1);
    assert s[0..1] == r;
    DecomposePlain(r);
    assert !IsMark(r[0]);
  }

  /** Normalisation is not idempotent: a blank before a lone combining mark survives the trim
      and is exposed only once the mark is deleted, so a second pass trims it away. */
  lemma NormalizeNotIdempotent(s: string)
    requires s == "a \U{301}"
    ensures Normalize(s) == "a "
    ensures Normalize(Normalize(s)) == "a"
  {
    LoneMarkLower(s);
    LoneMarkTrim(s);
    LoneMarkDecompose(s);
    assert "a " + ['\U{301}'] == s;
    StripTrailingMark("a ", '\U{301}');
    TrailingBlankNormal("a ", "a");
  }

  /** An answer after an article or any other prefix is accepted. */
  lemma PrefixedAnswerAccepted(prefix: string, expected: string)
    ensures Accepts(prefix + expected, expected)
  {
    ExtraWordsAccepted(prefix, expected, "");
    assert prefix + expected + "" == prefix + expected;
  }

  /** Extra words around the answer are tolerated: "la pizza" is accepted for "pizza". */
  lemma PizzaWithArticleAccepted(input: string, expected: string)
    requires input == "la pizza" && expected == "pizza"
    ensures Accepts(input, expected)
  {
    var article := input[..3];
    assert input == article + expected;
    PrefixedAnswerAccepted(article, expected);
  }

  /** A truncated answer is not: "pizz" is rejected for "pizza", since only the input is
      searched for the answer and never the other way round. */
  lemma TruncatedAnswerRejected(input: string, expected: string)
    requires input == "pizz" && expected == "pizza"
    ensures !Accepts(input, expected)
  {
    PlainIsNormal(expected);
    PlainIsNormal(input);
    ShorterInputRejected(input, expected);
  }

  /** Every answer is accepted for itself. */
  lemma AnswerAcceptsItself(expected: string)
    ensures Accepts(expected, expected)
  {
    assert Normalize(expected) <= Normalize(expected);
  }
}
