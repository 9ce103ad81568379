/** The Python string and path built-ins that the scripts rely on, modelled on `string`,
    a sequence of Unicode code points as Python 3's `str` is. */
module PyStr {

  // ---------------------------------------------------------------------------
  // Prefixes, searching
  // ---------------------------------------------------------------------------

  /** `s.startswith(p)` */
  predicate StartsWith(s: string, p: string) {
    |p| <= |s| && s[..|p|] == p
  }

  /** `p` occurs in `s` starting at index `j` */
  predicate OccursAt(s: string, p: string, j: int) {
    0 <= j && j + |p| <= |s| && s[j..j + |p|] == p
  }

  /** `s.find(p)`: the first index at which `p` occurs in `s`, or -1 when it does not occur */
  function Find(s: string, p: string): (k: int)
    ensures k == -1 || OccursAt(s, p, k)
    ensures forall j :: 0 <= j && (k == -1 || j < k) ==> !OccursAt(s, p, j)
  {
    FindFrom(s, p, 0)
  }

  function FindFrom(s: string, p: string, i: nat): (k: int)
    requires i <= |s|
    ensures k == -1 || (i <= k && OccursAt(s, p, k))
    ensures forall j :: i <= j && (k == -1 || j < k) ==> !OccursAt(s, p, j)
    decreases |s| - i
  {
    if i + |p| > |s| then -1
    else if s[i..i + |p|] == p then i
    else FindFrom(s, p, i + 1)
  }

  /** The first index of character `c` in `s`, or -1 */
  function IndexOfChar(s: string, c: char): (k: int)
    ensures -1 <= k < |s|
    ensures k == -1 ==> c !in s
    ensures k >= 0 ==> s[k] == c && c !in s[..k]
  {
    if s == [] then -1
    else if s[0] == c then 0
    else
      var k := IndexOfChar(s[1..], c);
      assert s[1..][..if k < 0 then 0 else k] == s[1..if k < 0 then 1 else k + 1];
      if k < 0 then -1 else k + 1
  }

  /** `s.rfind(c)` for a one-character `c`: the last index of `c` in `s`, or -1 */
  function LastIndexOfChar(s: string, c: char): (k: int)
    ensures -1 <= k < |s|
    ensures k >= 0 ==> s[k] == c
    ensures forall j :: k < j < |s| ==> s[j] != c
  {
    if s == [] then -1
    else if s[|s| - 1] == c then |s| - 1
    else LastIndexOfChar(s[..|s| - 1], c)
  }

  // ---------------------------------------------------------------------------
  // Slicing: s[start:end] with Python's normalisation of the bounds
  // ---------------------------------------------------------------------------

  /** A slice bound as Python normalises it for a sequence of length `n`: a negative bound counts
      from the end, and the result is clamped into 0..n. */
  function SliceBound(i: int, n: nat): (r: nat)
    ensures r <= n
    ensures 0 <= i <= n ==> r == i
    ensures i < 0 && 0 <= n + i ==> r == n + i
  {
    if i < 0 then (if i + n < 0 then 0 else i + n)
    else if i > n then n
    else i
  }

  /** `s[start:end]` */
  function Slice(s: string, start: int, end: int): (r: string)
    ensures |r| <= |s|
    ensures SliceBound(start, |s|) < SliceBound(end, |s|) ==>
              r == s[SliceBound(start, |s|)..SliceBound(end, |s|)]
    ensures SliceBound(end, |s|) <= SliceBound(start, |s|) ==> r == []
  {
    var a, b := SliceBound(start, |s|), SliceBound(end, |s|);
    if a < b then s[a..b] else []
  }

  // ---------------------------------------------------------------------------
  // str.replace(pat, rep): left to right, non-overlapping
  // ---------------------------------------------------------------------------

  /** `s.replace(pat, rep)` for a non-empty pattern `pat` (the scripts never replace the empty string) */
  function ReplaceAll(s: string, pat: string, rep: string): string
    requires |pat| > 0
    decreases |s|
  {
    if |s| < |pat| then s
    else if s[..|pat|] == pat then rep + ReplaceAll(s[|pat|..], pat, rep)
    else [s[0]] + ReplaceAll(s[1..], pat, rep)
  }

  /** A character in neither the text nor the replacement is not in the result. */
  lemma {:induction false} ReplaceAllKeepsAbsent(s: string, pat: string, rep: string, ch: char)
    requires |pat| > 0 && ch !in s && ch !in rep
    ensures ch !in ReplaceAll(s, pat, rep)
    decreases |s|
  {
    if |s| < |pat| {
    } else if s[..|pat|] == pat {
      assert forall x :: x in s[|pat|..] ==> x in s;
      ReplaceAllKeepsAbsent(s[|pat|..], pat, rep, ch);
    } else {
      assert forall x :: x in s[1..] ==> x in s;
      ReplaceAllKeepsAbsent(s[1..], pat, rep, ch);
    }
  }

  /** Replacing a string that does not occur changes nothing. */
  lemma {:induction false} ReplaceAbsent(s: string, pat: string, rep: string)
    requires |pat| > 0
    requires forall j :: !OccursAt(s, pat, j)
    ensures ReplaceAll(s, pat, rep) == s
    decreases |s|
  {
    if |s| < |pat| {
    } else {
      assert !OccursAt(s, pat, 0);
      forall j ensures !OccursAt(s[1..], pat, j) {
        if OccursAt(s[1..], pat, j) {
          assert s[1..][j..j + |pat|] == s[j + 1..j + 1 + |pat|];
          assert OccursAt(s, pat, j + 1);
        }
      }
      ReplaceAbsent(s[1..], pat, rep);
      assert [s[0]] + s[1..] == s;
    }
  }

  /** Replacing one character is done character by character, so it distributes over `+`. */
  lemma {:induction false} ReplaceCharConcat(a: string, b: string, c: char, rep: string)
    ensures ReplaceAll(a + b, [c], rep) == ReplaceAll(a, [c], rep) + ReplaceAll(b, [c], rep)
    decreases |a|
  {
    if a == [] {
      assert a + b == b;
    } else {
      assert (a + b)[1..] == a[1..] + b;
      assert (a + b)[..1] == [a[0]] && a[..1] == [a[0]];
      ReplaceCharConcat(a[1..], b, c, rep);
    }
  }

  /** After replacing character `c`, only characters of the input other than `c`, and characters
      of the replacement, remain. */
  lemma {:induction false} ReplaceCharMembers(s: string, c: char, rep: string, ch: char)
    ensures ch in ReplaceAll(s, [c], rep) ==> (ch in s && ch != c) || ch in rep
    decreases |s|
  {
    if s != [] {
      assert s[..1] == [s[0]];
      ReplaceCharMembers(s[1..], c, rep, ch);
      if s[0] == c {
        assert ReplaceAll(s, [c], rep) == rep + ReplaceAll(s[1..], [c], rep);
      } else {
        assert ReplaceAll(s, [c], rep) == [s[0]] + ReplaceAll(s[1..], [c], rep);
      }
      assert forall x :: x in s[1..] ==> x in s;
    }
  }

  // ---------------------------------------------------------------------------
  // Case, path suffix
  // ---------------------------------------------------------------------------

  /** `c.lower()` on the ASCII letters; every other character is left as it is */
  function LowerChar(c: char): char {
    if 'A' <= c <= 'Z' then (c as int + 32) as char else c
  }

  /** `s.lower()`, ASCII letters only (exact for comparing against lower-case ASCII extensions) */
  function Lower(s: string): (r: string)
    ensures |r| == |s|
  {
    seq(|s|, i requires 0 <= i < |s| => LowerChar(s[i]))
  }

  /** `PurePath(name).suffix`: from the last '.' of the name to its end, provided that dot is neither
      the first nor the last character; otherwise the empty string. */
  function Suffix(name: string): (r: string)
    ensures r == [] || (r[0] == '.' && '.' !in r[1..] && |r| >= 2)
    ensures r != [] ==> exists i :: 0 < i < |name| && r == name[i..]
  {
    var i := LastIndexOfChar(name, '.');
    if 0 < i < |name| - 1 then
      assert forall x :: x in name[i..][1..] ==> x != '.' by {
        assert name[i..][1..] == name[i + 1..];
      }
      name[i..]
    else []
  }

  // ---------------------------------------------------------------------------
  // str.split(sep) for a one-character separator
  // ---------------------------------------------------------------------------

  /** `s.split(sep)`: the pieces between occurrences of `sep`, empty ones included */
  function SplitOn(s: string, sep: char): (parts: seq<string>)
    ensures |parts| >= 1
    ensures forall i :: 0 <= i < |parts| ==> sep !in parts[i]
    decreases |s|
  {
    var k := IndexOfChar(s, sep);
    if k < 0 then [s] else [s[..k]] + SplitOn(s[k + 1..], sep)
  }

  /** The first piece of `a + [sep] + b` is `a` when `a` has no separator. */
  lemma SplitOnCons(a: string, sep: char, b: string)
    requires sep !in a
    ensures SplitOn(a + [sep] + b, sep) == [a] + SplitOn(b, sep)
  {
    var s := a + [sep] + b;
    var k := IndexOfChar(s, sep);
    assert s[|a|] == sep;
    assert s[..|a|] == a;
    assert forall i :: 0 <= i < |a| ==> s[i] == a[i];
    assert k == |a|;
    assert s[k + 1..] == b;
  }

  /** Three separator-free pieces joined by the separator split back into those pieces. */
  lemma SplitOnThree(a: string, b: string, c: string, sep: char)
    requires sep !in a && sep !in b && sep !in c
    ensures SplitOn(a + [sep] + (b + [sep] + c), sep) == [a, b, c]
  {
    SplitOnNone(c, sep);
    SplitOnCons(b, sep, c);
    SplitOnCons(a, sep, b + [sep] + c);
  }

  /** Likewise for four pieces */
  lemma SplitOnFour(a: string, b: string, c: string, d: string, sep: char)
    requires sep !in a && sep !in b && sep !in c && sep !in d
    ensures SplitOn(a + [sep] + (b + [sep] + (c + [sep] + d)), sep) == [a, b, c, d]
  {
    SplitOnThree(b, c, d, sep);
    SplitOnCons(a, sep, b + [sep] + (c + [sep] + d));
  }

  /** A string without the separator splits into itself. */
  lemma SplitOnNone(a: string, sep: char)
    requires sep !in a
    ensures SplitOn(a, sep) == [a]
  {
  }

  // ---------------------------------------------------------------------------
  // str.split() with no argument, and ' '.join
  // ---------------------------------------------------------------------------

  /** The characters `str.split()` treats as whitespace (Python's `str.isspace` set) */
  predicate IsSpace(c: char) {
    || c == ' '
    || '\t' <= c <= '\r'
    || '\U{1c}' <= c <= '\U{1f}'
    || c == '\U{85}' || c == '\U{a0}' || c == '\U{1680}'
    || '\U{2000}' <= c <= '\U{200a}'
    || c == '\U{2028}' || c == '\U{2029}' || c == '\U{202f}' || c == '\U{205f}' || c == '\U{3000}'
  }

  /** A piece that `str.split()` can return: non-empty, no whitespace */
  predicate IsWord(w: string) {
    |w| > 0 && forall i :: 0 <= i < |w| ==> !IsSpace(w[i])
  }

  /** Length of the run of non-whitespace characters that starts `s` */
  function LeadingWordLength(s: string): (n: nat)
    ensures n <= |s|
    ensures forall i :: 0 <= i < n ==> !IsSpace(s[i])
    ensures n < |s| ==> IsSpace(s[n])
  {
    if s == [] || IsSpace(s[0]) then 0 else 1 + LeadingWordLength(s[1..])
  }

  /** `s.split()`: the maximal runs of non-whitespace characters, in order */
  function Split(s: string): (words: seq<string>)
    decreases |s|
  {
    if s == [] then []
    else if IsSpace(s[0]) then Split(s[1..])
    else
      var n := LeadingWordLength(s);
      [s[..n]] + Split(s[n..])
  }

  /** `' '.join(words)` */
  function JoinWithSpaces(words: seq<string>): string
  {
    if |words| == 0 then []
    else if |words| == 1 then words[0]
    else words[0] + " " + JoinWithSpaces(words[1..])
  }

  /** No whitespace but plain spaces, none at either end, never two in a row */
  predicate IsSingleSpaced(t: string) {
    && (forall i :: 0 <= i < |t| && IsSpace(t[i]) ==> t[i] == ' ')
    && (|t| > 0 ==> t[0] != ' ' && t[|t| - 1] != ' ')
    && (forall i :: 0 <= i < |t| - 1 ==> !(t[i] == ' ' && t[i + 1] == ' '))
  }

  /** Every piece `str.split()` returns is a word. */
  lemma {:induction false} SplitYieldsWords(s: string)
    ensures forall i :: 0 <= i < |Split(s)| ==> IsWord(Split(s)[i])
    decreases |s|
  {
    if s == [] {
    } else if IsSpace(s[0]) {
      SplitYieldsWords(s[1..]);
    } else {
      var n := LeadingWordLength(s);
      SplitYieldsWords(s[n..]);
    }
  }

  /** A word followed by whitespace or by nothing is one leading word. */
  lemma LeadingWordOfWord(w: string, rest: string)
    requires IsWord(w)
    requires rest == [] || IsSpace(rest[0])
    ensures LeadingWordLength(w + rest) == |w|
  {
    var s := w + rest;
    assert forall i :: 0 <= i < |w| ==> s[i] == w[i];
    assert |w| < |s| ==> s[|w|] == rest[0];
  }

  /** Splitting a single-space join gives back the words. */
  lemma {:induction false} SplitJoinRoundTrip(words: seq<string>)
    requires forall i :: 0 <= i < |words| ==> IsWord(words[i])
    ensures Split(JoinWithSpaces(words)) == words
  {
    if |words| == 0 {
    } else if |words| == 1 {
      var w := words[0];
      LeadingWordOfWord(w, []);
      assert w + [] == w;
      assert w[|w|..] == [];
      assert w[..|w|] == w;
    } else {
      var w := words[0];
      var rest := JoinWithSpaces(words[1..]);
      var s := w + " " + rest;
      assert s == w + (" " + rest);
      LeadingWordOfWord(w, " " + rest);
      assert s[..|w|] == w;
      assert s[|w|..] == " " + rest;
      assert (" " + rest)[1..] == rest;
      SplitJoinRoundTrip(words[1..]);
      assert Split(" " + rest) == Split(rest);
      assert [w] + words[1..] == words;
    }
  }

  /** The first and last characters of a join are those of its first and last words. */
  lemma {:induction false} JoinEnds(words: seq<string>)
    requires |words| > 0
    requires forall i :: 0 <= i < |words| ==> IsWord(words[i])
    ensures |JoinWithSpaces(words)| > 0
    ensures IsWord(words[0]) && JoinWithSpaces(words)[0] == words[0][0]
    ensures IsWord(words[|words| - 1]) &&
            JoinWithSpaces(words)[|JoinWithSpaces(words)| - 1] == words[|words| - 1][|words[|words| - 1]| - 1]
  {
    if |words| > 1 {
      JoinEnds(words[1..]);
    }
  }

  /** `a + " " + b` is single-spaced when `a` and `b` are non-empty and single-spaced. */
  lemma GlueSingleSpaced(a: string, b: string)
    requires IsSingleSpaced(a) && IsSingleSpaced(b) && |a| > 0 && |b| > 0
    ensures IsSingleSpaced(a + " " + b)
  {
    var t := a + " " + b;
    forall i | 0 <= i < |t| && IsSpace(t[i]) ensures t[i] == ' ' {
      if i < |a| { assert t[i] == a[i]; }
      else if i > |a| { assert t[i] == b[i - |a| - 1]; }
    }
    forall i | 0 <= i < |t| - 1 ensures !(t[i] == ' ' && t[i + 1] == ' ') {
      if i < |a| - 1 { assert t[i] == a[i] && t[i + 1] == a[i + 1]; }
      else if i == |a| - 1 { assert t[i] == a[|a| - 1]; }
      else if i == |a| { assert t[i + 1] == b[0]; }
      else { assert t[i] == b[i - |a| - 1] && t[i + 1] == b[i - |a|]; }
    }
  }

  /** Joining words with single spaces yields a single-spaced string. */
  lemma {:induction false} JoinIsSingleSpaced(words: seq<string>)
    requires forall i :: 0 <= i < |words| ==> IsWord(words[i])
    ensures IsSingleSpaced(JoinWithSpaces(words))
  {
    if |words| == 1 {
      assert IsSingleSpaced(words[0]);
    } else if |words| > 1 {
      JoinIsSingleSpaced(words[1..]);
      JoinEnds(words[1..]);
      assert IsSingleSpaced(words[0]);
      GlueSingleSpaced(words[0], JoinWithSpaces(words[1..]));
    }
  }
}
