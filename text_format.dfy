/** The text transform `format_text` of app.py: four substitutions applied in order
    (line-start bullets, newlines, italic wrapping, dollar escaping). */
module TextFormat {

  // ---------------------------------------------------------------------------
  // Characters
  // ---------------------------------------------------------------------------

  /** `\w` of the regular expressions, restricted to ASCII letters, digits and `_`. */
  predicate IsWordChar(c: char) {
    ('a' <= c <= 'z') || ('A' <= c <= 'Z') || ('0' <= c <= '9') || c == '_'
  }

  /** ASCII lower-casing, the case folding used for `re.IGNORECASE`. */
  function Lower(c: char): (l: char)
    ensures 'A' <= c <= 'Z' ==> 'a' <= l <= 'z' && l as int == c as int + 32
    ensures !('A' <= c <= 'Z') ==> l == c
  {
    if 'A' <= c <= 'Z' then (c as int + 32) as char else c
  }

  /** The six characters at `k` spell `italic`, ignoring case. */
  predicate ItalicAt(s: string, k: int) {
    0 <= k && k + 6 <= |s| &&
    Lower(s[k]) == 'i' && Lower(s[k + 1]) == 't' && Lower(s[k + 2]) == 'a' &&
    Lower(s[k + 3]) == 'l' && Lower(s[k + 4]) == 'i' && Lower(s[k + 5]) == 'c'
  }

  /** Number of occurrences of `c` in `s`. */
  function Count(s: string, c: char): nat {
    multiset(s)[c]
  }

  lemma CountAppend(a: string, b: string, c: char)
    ensures Count(a + b, c) == Count(a, c) + Count(b, c)
  {
    assert multiset(a + b) == multiset(a) + multiset(b);
  }

  /** Concatenation regroups freely. */
  lemma Associative(x: string, y: string, z: string)
    ensures x + (y + z) == (x + y) + z
  {
  }

  // ---------------------------------------------------------------------------
  // Step 1: `re.sub(r'(^o )', r'* ', text, flags=re.MULTILINE)`
  // ---------------------------------------------------------------------------

  /** Position `i` starts a line: the start of the text or just after a newline. */
  predicate LineStart(s: string, i: int)
    requires 0 <= i < |s|
  {
    i == 0 || s[i - 1] == '\n'
  }

  /** An `o ` that the bullet substitution rewrites begins at `i`. */
  predicate BulletAt(s: string, i: int) {
    0 <= i && i + 1 < |s| && s[i] == 'o' && s[i + 1] == ' ' && LineStart(s, i)
  }

  /** The left-to-right scan of the substitution; `atLineStart` says whether the
      position before `s` is a line start. */
  function BulletsFrom(s: string, atLineStart: bool): (r: string)
    ensures |r| == |s|
    decreases |s|
  {
    if |s| >= 2 && atLineStart && s[0] == 'o' && s[1] == ' ' then
      "* " + BulletsFrom(s[2..], false)
    else if s == [] then
      []
    else
      [s[0]] + BulletsFrom(s[1..], s[0] == '\n')
  }

  function Bullets(s: string): string {
    BulletsFrom(s, true)
  }

  /** What `BulletsFrom` puts at position `i`, stated per position. */
  predicate BulletFromAt(s: string, atLineStart: bool, i: int)
    requires 0 <= i < |s|
  {
    i + 1 < |s| && s[i] == 'o' && s[i + 1] == ' ' &&
    (if i == 0 then atLineStart else s[i - 1] == '\n')
  }

  lemma {:induction false} BulletsFromAt(s: string, atLineStart: bool, i: int)
    requires 0 <= i < |s|
    ensures BulletsFrom(s, atLineStart)[i] == if BulletFromAt(s, atLineStart, i) then '*' else s[i]
    decreases |s|
  {
    if |s| >= 2 && atLineStart && s[0] == 'o' && s[1] == ' ' {
      if i >= 2 {
        BulletsFromAt(s[2..], false, i - 2);
      }
    } else if i > 0 {
      BulletsFromAt(s[1..], s[0] == '\n', i - 1);
    }
  }

  /** The bullet step changes exactly the `o` of each line-start `o ` into `*`;
      an `o ` elsewhere and an `O ` stay as they are. */
  lemma BulletsPointwise(s: string)
    ensures |Bullets(s)| == |s|
    ensures forall i :: 0 <= i < |s| ==> Bullets(s)[i] == if BulletAt(s, i) then '*' else s[i]
  {
    forall i | 0 <= i < |s|
      ensures Bullets(s)[i] == if BulletAt(s, i) then '*' else s[i]
    {
      BulletsFromAt(s, true, i);
    }
  }

  /** Every character other than `o` and `*` keeps its number of occurrences. */
  lemma {:induction false} BulletsFromCount(s: string, atLineStart: bool, d: char)
    requires d != 'o' && d != '*'
    ensures Count(BulletsFrom(s, atLineStart), d) == Count(s, d)
    decreases |s|, 1
  {
    if |s| >= 2 && atLineStart && s[0] == 'o' && s[1] == ' ' {
      BulletsFromCountBullet(s, d);
    } else if s != [] {
      BulletsFromCountCopy(s, atLineStart, d);
    }
  }

  lemma {:induction false} BulletsFromCountBullet(s: string, d: char)
    requires d != 'o' && d != '*'
    requires |s| >= 2 && s[0] == 'o' && s[1] == ' '
    ensures Count(BulletsFrom(s, true), d) == Count(s, d)
    decreases |s|, 0
  {
    var rest := BulletsFrom(s[2..], false);
    BulletStep(s);
    BulletsFromCount(s[2..], false, d);
    assert s == "o " + s[2..];
    CountAppend("o ", s[2..], d);
    CountAppend("* ", rest, d);
    assert Count("o ", d) == Count("* ", d);
  }

  lemma {:induction false} BulletsFromCountCopy(s: string, atLineStart: bool, d: char)
    requires d != 'o' && d != '*'
    requires s != [] && !(|s| >= 2 && atLineStart && s[0] == 'o' && s[1] == ' ')
    ensures Count(BulletsFrom(s, atLineStart), d) == Count(s, d)
    decreases |s|, 0
  {
    var rest := BulletsFrom(s[1..], s[0] == '\n');
    assert Count(s[1..], d) == Count(rest, d) by {
      BulletsFromCount(s[1..], s[0] == '\n', d);
    }
    assert Count(s, d) == Count([s[0]], d) + Count(s[1..], d) by {
      assert s == [s[0]] + s[1..];
      CountAppend([s[0]], s[1..], d);
    }
    assert Count(BulletsFrom(s, atLineStart), d) == Count([s[0]], d) + Count(rest, d) by {
      CopyStep(s, atLineStart);
      CountAppend([s[0]], rest, d);
    }
  }

  /** Without a newline no position after the first is a line start. */
  lemma {:induction false} BulletsFromNoNewline(s: string)
    requires '\n' !in s
    ensures BulletsFrom(s, false) == s
    decreases |s|
  {
    if s != [] {
      BulletsFromNoNewline(s[1..]);
    }
  }

  /** A single line that does not open with `o ` is left unchanged. */
  lemma BulletsSingleLine(s: string)
    requires '\n' !in s
    requires !(|s| >= 2 && s[0] == 'o' && s[1] == ' ')
    ensures Bullets(s) == s
  {
    if s != [] {
      BulletsFromNoNewline(s[1..]);
    }
  }

  /** Lines are rewritten independently: after a newline the scan is at a line start again. */
  lemma {:induction false} BulletsFromAcrossNewline(a: string, b: string, atLineStart: bool)
    ensures BulletsFrom(a + "\n" + b, atLineStart) == BulletsFrom(a, atLineStart) + "\n" + BulletsFrom(b, true)
    decreases |a|, 1
  {
    if a == [] {
      assert a + "\n" + b == "\n" + b;
      assert (a + "\n" + b)[1..] == b;
    } else if |a| >= 2 && atLineStart && a[0] == 'o' && a[1] == ' ' {
      AcrossNewlineBullet(a, b);
    } else {
      AcrossNewlineCopy(a, b, atLineStart);
    }
  }

  lemma {:induction false} AcrossNewlineBullet(a: string, b: string)
    requires |a| >= 2 && a[0] == 'o' && a[1] == ' '
    ensures BulletsFrom(a + "\n" + b, true) == BulletsFrom(a, true) + "\n" + BulletsFrom(b, true)
    decreases |a|, 0
  {
    var s := a + "\n" + b;
    assert s[0] == 'o' && s[1] == ' ' && s[2..] == a[2..] + "\n" + b;
    BulletStep(s);
    BulletStep(a);
    BulletsFromAcrossNewline(a[2..], b, false);
  }

  lemma {:induction false} AcrossNewlineCopy(a: string, b: string, atLineStart: bool)
    requires a != [] && !(|a| >= 2 && atLineStart && a[0] == 'o' && a[1] == ' ')
    ensures BulletsFrom(a + "\n" + b, atLineStart) == BulletsFrom(a, atLineStart) + "\n" + BulletsFrom(b, true)
    decreases |a|, 0
  {
    var s := a + "\n" + b;
    assert s[0] == a[0] && s[1..] == a[1..] + "\n" + b;
    assert |a| == 1 ==> s[1] == '\n';
    assert |a| >= 2 ==> s[1] == a[1];
    CopyStep(s, atLineStart);
    CopyStep(a, atLineStart);
    BulletsFromAcrossNewline(a[1..], b, a[0] == '\n');
  }

  /** A line-start `o ` becomes `* ` and the scan moves past it. */
  lemma BulletStep(s: string)
    requires |s| >= 2 && s[0] == 'o' && s[1] == ' '
    ensures BulletsFrom(s, true) == "* " + BulletsFrom(s[2..], false)
  {
  }

  /** Outside a line-start `o `, the scan copies one character and moves on. */
  lemma CopyStep(s: string, atLineStart: bool)
    requires s != [] && !(|s| >= 2 && atLineStart && s[0] == 'o' && s[1] == ' ')
    ensures BulletsFrom(s, atLineStart) == [s[0]] + BulletsFrom(s[1..], s[0] == '\n')
  {
  }

  // ---------------------------------------------------------------------------
  // Steps 2 and 4: `str.replace` of one character by a string
  // ---------------------------------------------------------------------------

  /** Every occurrence of `c` in `s` replaced by `t`. */
  function Replace(s: string, c: char, t: string): (r: string)
    ensures c !in t ==> c !in r
    decreases |s|
  {
    if s == [] then [] else (if s[0] == c then t else [s[0]]) + Replace(s[1..], c, t)
  }

  /** Replacement works character by character: it distributes over concatenation. */
  lemma {:induction false} ReplaceAppend(a: string, b: string, c: char, t: string)
    ensures Replace(a + b, c, t) == Replace(a, c, t) + Replace(b, c, t)
    decreases |a|
  {
    if a == [] {
      assert a + b == b;
    } else {
      assert (a + b)[0] == a[0];
      assert (a + b)[1..] == a[1..] + b;
      ReplaceAppend(a[1..], b, c, t);
    }
  }

  /** A text without `c` is left unchanged. */
  lemma {:induction false} ReplaceAbsent(s: string, c: char, t: string)
    requires c !in s
    ensures Replace(s, c, t) == s
    decreases |s|
  {
    if s != [] {
      ReplaceAbsent(s[1..], c, t);
    }
  }

  /** A character occurring in `t` as often as in `[c]` keeps its number of occurrences. */
  lemma {:induction false} ReplaceCount(s: string, c: char, t: string, d: char)
    requires Count(t, d) == Count([c], d)
    ensures Count(Replace(s, c, t), d) == Count(s, d)
    decreases |s|
  {
    if s != [] {
      ReplaceCount(s[1..], c, t, d);
      assert s == [s[0]] + s[1..];
    }
  }

  /** Each occurrence of `c` grows into the `|t|` characters of `t`; the rest are kept. */
  lemma {:induction false} ReplaceLength(s: string, c: char, t: string)
    ensures |Replace(s, c, t)| == |s| + Count(s, c) * (|t| - 1)
    decreases |s|
  {
    if s != [] {
      var n, d := Count(s[1..], c), |t| - 1;
      ReplaceLength(s[1..], c, t);
      assert s == [s[0]] + s[1..];
      CountAppend([s[0]], s[1..], c);
      if s[0] == c {
        assert Count(s, c) == n + 1;
        assert (n + 1) * d == n * d + d;
      } else {
        assert Count(s, c) == n;
      }
    }
  }

  /** The line-break token of step 2. */
  function Break(addSpace: bool): (b: string)
    ensures '\n' !in b && '$' !in b
  {
    if addSpace then "<br><br>" else "<br>"
  }

  function Newlines(s: string, addSpace: bool): string {
    Replace(s, '\n', Break(addSpace))
  }

  /** Each newline becomes one break token and nothing else changes. */
  lemma NewlinesEachBreak(a: string, b: string, addSpace: bool)
    ensures '\n' !in Newlines(a, addSpace)
    ensures Newlines(a + "\n" + b, addSpace) == Newlines(a, addSpace) + Break(addSpace) + Newlines(b, addSpace)
  {
    ReplaceAppend(a + "\n", b, '\n', Break(addSpace));
    ReplaceAppend(a, "\n", '\n', Break(addSpace));
    assert Replace("\n", '\n', Break(addSpace)) == Break(addSpace);
  }

  /** Every newline becomes one whole break token: `<br><br>` (eight characters) with
      paragraph spacing, `<br>` (four) without. */
  lemma NewlinesLength(s: string, addSpace: bool)
    ensures '\n' !in Newlines(s, addSpace)
    ensures |Newlines(s, addSpace)| == |s| + Count(s, '\n') * (if addSpace then 7 else 3)
  {
    ReplaceLength(s, '\n', Break(addSpace));
  }

  function EscapeDollars(s: string): string {
    Replace(s, '$', "\\$")
  }

  /** Every `$` is immediately preceded by a backslash. */
  predicate DollarsEscaped(s: string) {
    forall i :: 0 <= i < |s| && s[i] == '$' ==> 0 < i && s[i - 1] == '\\'
  }

  lemma EscapedAppend(a: string, b: string)
    requires DollarsEscaped(a) && DollarsEscaped(b)
    ensures DollarsEscaped(a + b)
  {
    forall i | 0 <= i < |a + b| && (a + b)[i] == '$'
      ensures 0 < i && (a + b)[i - 1] == '\\'
    {
      if i >= |a| {
        assert b[i - |a|] == '$';
      } else {
        assert a[i] == '$';
      }
    }
  }

  lemma {:induction false} EscapeDollarsEscaped(s: string)
    ensures DollarsEscaped(EscapeDollars(s))
    ensures Count(EscapeDollars(s), '$') == Count(s, '$')
    decreases |s|
  {
    ReplaceCount(s, '$', "\\$", '$');
    if s != [] {
      EscapeDollarsEscaped(s[1..]);
      var head := if s[0] == '$' then "\\$" else [s[0]];
      assert DollarsEscaped(head);
      EscapedAppend(head, EscapeDollars(s[1..]));
    }
  }

  // ---------------------------------------------------------------------------
  // Step 3: `re.sub(r'\b(\w+italic\w+)\b', r'<i>\1</i>', text, flags=re.IGNORECASE)`
  // ---------------------------------------------------------------------------

  /** Length of the word-character run at the start of `s`. */
  function WordRunLength(s: string): (n: nat)
    ensures n <= |s|
    ensures forall j :: 0 <= j < n ==> IsWordChar(s[j])
    ensures n < |s| ==> !IsWordChar(s[n])
    decreases |s|
  {
    if s != [] && IsWordChar(s[0]) then 1 + WordRunLength(s[1..]) else 0
  }

  /** `italic` occurs in `w` with at least one character before it and one after it. */
  predicate HasInnerItalic(w: string) {
    exists k :: 0 < k < |w| - 6 && ItalicAt(w, k)
  }

  function Wrap(w: string): string {
    if HasInnerItalic(w) then "<i>" + w + "</i>" else w
  }

  /** Each maximal word run is wrapped in italic tags when it has an inner `italic`. */
  function Italics(s: string): string
    decreases |s|
  {
    if s == [] then []
    else if IsWordChar(s[0]) then
      var n := WordRunLength(s);
      Wrap(s[..n]) + Italics(s[n..])
    else [s[0]] + Italics(s[1..])
  }

  /** `\b` at position `p`: exactly one of the neighbouring characters is a word character. */
  ghost predicate IsBoundary(s: string, p: int)
    requires 0 <= p <= |s|
  {
    (0 < p && IsWordChar(s[p - 1])) != (p < |s| && IsWordChar(s[p]))
  }

  /** The pattern `\b\w+italic\w+\b` matches `s[p..e]`. */
  ghost predicate IsMatch(s: string, p: int, e: int) {
    0 <= p < e <= |s| && IsBoundary(s, p) && IsBoundary(s, e) &&
    (forall j :: p <= j < e ==> IsWordChar(s[j])) &&
    exists k :: p < k && k + 6 < e && ItalicAt(s, k)
  }

  /** `re.sub` as a scan: at each position try the pattern; on a match emit the
      replacement and resume after it, otherwise copy one character. */
  ghost function RegexScan(s: string, p: int): string
    requires 0 <= p <= |s|
    decreases |s| - p
  {
    if p == |s| then []
    else if exists e :: IsMatch(s, p, e) then
      var e :| IsMatch(s, p, e);
      "<i>" + s[p..e] + "</i>" + RegexScan(s, e)
    else [s[p]] + RegexScan(s, p + 1)
  }

  /** Inside a word run no match can start, so the scan copies the rest of the run. */
  lemma {:induction false} ScanInsideRun(s: string, q: int, e: int)
    requires 0 < q <= e <= |s|
    requires forall j :: q - 1 <= j < e ==> IsWordChar(s[j])
    ensures RegexScan(s, q) == s[q..e] + RegexScan(s, e)
    decreases e - q
  {
    if q < e {
      assert !IsBoundary(s, q);
      ScanInsideRun(s, q + 1, e);
    }
  }

  /** A match starting at the start of a word run ends at the end of that run, and
      exists exactly when the run has an inner `italic`. */
  lemma MatchAtRunStart(s: string, p: int, e: int)
    requires 0 <= p < e <= |s|
    requires p == 0 || !IsWordChar(s[p - 1])
    requires forall j :: p <= j < e ==> IsWordChar(s[j])
    requires e == |s| || !IsWordChar(s[e])
    ensures forall e' :: IsMatch(s, p, e') <==> e' == e && HasInnerItalic(s[p..e])
  {
    forall e' ensures IsMatch(s, p, e') <==> e' == e && HasInnerItalic(s[p..e]) {
      if IsMatch(s, p, e') {
        MatchIsRun(s, p, e, e');
      }
      if e' == e && HasInnerItalic(s[p..e]) {
        RunIsMatch(s, p, e);
      }
    }
  }

  lemma MatchIsRun(s: string, p: int, e: int, e': int)
    requires 0 <= p < e <= |s|
    requires forall j :: p <= j < e ==> IsWordChar(s[j])
    requires e == |s| || !IsWordChar(s[e])
    requires IsMatch(s, p, e')
    ensures e' == e && HasInnerItalic(s[p..e])
  {
    assert e' <= e;
    assert e' >= e;
    var k :| p < k && k + 6 < e' && ItalicAt(s, k);
    assert ItalicAt(s[p..e], k - p);
  }

  lemma RunIsMatch(s: string, p: int, e: int)
    requires 0 <= p < e <= |s|
    requires p == 0 || !IsWordChar(s[p - 1])
    requires forall j :: p <= j < e ==> IsWordChar(s[j])
    requires e == |s| || !IsWordChar(s[e])
    requires HasInnerItalic(s[p..e])
    ensures IsMatch(s, p, e)
  {
    var k :| 0 < k < e - p - 6 && ItalicAt(s[p..e], k);
    assert ItalicAt(s, p + k);
  }

  /** The implementation's view of a word run starting at `p`. */
  lemma ItalicsAtRun(s: string, p: int) returns (e: int)
    requires 0 <= p < |s| && IsWordChar(s[p])
    ensures p < e <= |s|
    ensures forall j :: p <= j < e ==> IsWordChar(s[j])
    ensures e == |s| || !IsWordChar(s[e])
    ensures Italics(s[p..]) == Wrap(s[p..e]) + Italics(s[e..])
  {
    var t := s[p..];
    var n := WordRunLength(t);
    e := p + n;
    assert t[..n] == s[p..e];
    assert t[n..] == s[e..];
    forall j | p <= j < e ensures IsWordChar(s[j]) {
      assert s[j] == t[j - p];
    }
    assert e < |s| ==> s[e] == t[n];
  }

  /** The scan's view of the same run. */
  lemma ScanAtRun(s: string, p: int, e: int)
    requires 0 <= p < e <= |s|
    requires p == 0 || !IsWordChar(s[p - 1])
    requires forall j :: p <= j < e ==> IsWordChar(s[j])
    requires e == |s| || !IsWordChar(s[e])
    ensures RegexScan(s, p) == Wrap(s[p..e]) + RegexScan(s, e)
  {
    MatchAtRunStart(s, p, e);
    if HasInnerItalic(s[p..e]) {
      assert IsMatch(s, p, e);
    } else {
      ScanAtPlainRun(s, p, e);
    }
  }

  lemma ScanAtPlainRun(s: string, p: int, e: int)
    requires 0 <= p < e <= |s|
    requires forall j :: p <= j < e ==> IsWordChar(s[j])
    requires forall e' :: !IsMatch(s, p, e')
    ensures RegexScan(s, p) == s[p..e] + RegexScan(s, e)
  {
    ScanCopyStep(s, p);
    ScanInsideRun(s, p + 1, e);
    assert s[p..e] == [s[p]] + s[p + 1..e];
    Associative([s[p]], s[p + 1..e], RegexScan(s, e));
  }

  /** Where no match starts, the scan copies one character and moves on. */
  lemma ScanCopyStep(s: string, p: int)
    requires 0 <= p < |s|
    requires forall e' :: !IsMatch(s, p, e')
    ensures RegexScan(s, p) == [s[p]] + RegexScan(s, p + 1)
  {
  }

  /** The run-by-run implementation agrees with the scan of `re.sub`, from any
      position that is not strictly inside a word run. */
  lemma {:induction false} ItalicsScan(s: string, p: int)
    requires 0 <= p <= |s|
    requires p == 0 || p == |s| || !IsWordChar(s[p - 1]) || !IsWordChar(s[p])
    ensures Italics(s[p..]) == RegexScan(s, p)
    decreases |s| - p
  {
    if p == |s| {
    } else if !IsWordChar(s[p]) {
      assert s[p..][1..] == s[p + 1..];
      ItalicsScan(s, p + 1);
    } else {
      var e := ItalicsAtRun(s, p);
      ScanAtRun(s, p, e);
      ItalicsScan(s, e);
    }
  }

  /** `Italics` is the substitution `re.sub` performs. */
  lemma ItalicsIsRegexSub(s: string)
    ensures Italics(s) == RegexScan(s, 0)
  {
    assert s[0..] == s;
    ItalicsScan(s, 0);
  }

  lemma {:induction false} WordRunLengthAppend(a: string, b: string)
    ensures WordRunLength(a + b) ==
      if WordRunLength(a) < |a| then WordRunLength(a) else |a| + WordRunLength(b)
    decreases |a|
  {
    if a == [] {
      assert a + b == b;
    } else {
      assert (a + b)[0] == a[0];
      assert (a + b)[1..] == a[1..] + b;
      WordRunLengthAppend(a[1..], b);
    }
  }

  /** Italics acts separately on two texts that do not split a word run between them. */
  lemma {:induction false} ItalicsAppend(a: string, b: string)
    requires a == [] || b == [] || !IsWordChar(a[|a| - 1]) || !IsWordChar(b[0])
    ensures Italics(a + b) == Italics(a) + Italics(b)
    decreases |a|, 1
  {
    if a == [] {
      assert a + b == b;
    } else if !IsWordChar(a[0]) {
      ItalicsAppendNonWord(a, b);
    } else if WordRunLength(a) < |a| {
      ItalicsAppendInnerRun(a, b);
    } else {
      ItalicsAppendWholeRun(a, b);
    }
  }

  lemma {:induction false} ItalicsAppendNonWord(a: string, b: string)
    requires a != [] && !IsWordChar(a[0])
    requires b == [] || !IsWordChar(a[|a| - 1]) || !IsWordChar(b[0])
    ensures Italics(a + b) == Italics(a) + Italics(b)
    decreases |a|, 0
  {
    assert (a + b)[0] == a[0] && (a + b)[1..] == a[1..] + b;
    CharStep(a + b);
    CharStep(a);
    ItalicsAppend(a[1..], b);
    Associative([a[0]], Italics(a[1..]), Italics(b));
  }

  /** At any other character, the scan copies it and moves on. */
  lemma CharStep(s: string)
    requires s != [] && !IsWordChar(s[0])
    ensures Italics(s) == [s[0]] + Italics(s[1..])
  {
  }

  lemma {:induction false} ItalicsAppendInnerRun(a: string, b: string)
    requires a != [] && IsWordChar(a[0]) && WordRunLength(a) < |a|
    requires b == [] || !IsWordChar(a[|a| - 1]) || !IsWordChar(b[0])
    ensures Italics(a + b) == Italics(a) + Italics(b)
    decreases |a|, 0
  {
    var n := WordRunLength(a);
    InnerRunHead(a, b, n);
    RunStep(a, n);
    ItalicsAppend(a[n..], b);
    Associative(Wrap(a[..n]), Italics(a[n..]), Italics(b));
  }

  /** A run that ends inside `a` ends at the same place in `a + b`. */
  lemma InnerRunHead(a: string, b: string, n: nat)
    requires a != [] && IsWordChar(a[0]) && n == WordRunLength(a) < |a|
    ensures Italics(a + b) == Wrap(a[..n]) + Italics(a[n..] + b)
  {
    WordRunLengthAppend(a, b);
    assert (a + b)[..n] == a[..n] && (a + b)[n..] == a[n..] + b;
    RunStep(a + b, n);
  }

  /** At a word character, the scan treats the whole run of length `n` and moves past it. */
  lemma RunStep(s: string, n: nat)
    requires s != [] && IsWordChar(s[0]) && n == WordRunLength(s)
    ensures Italics(s) == Wrap(s[..n]) + Italics(s[n..])
  {
  }

  lemma ItalicsAppendWholeRun(a: string, b: string)
    requires a != [] && IsWordChar(a[0]) && WordRunLength(a) == |a|
    requires b == [] || !IsWordChar(b[0])
    ensures Italics(a + b) == Italics(a) + Italics(b)
  {
    WordRunLengthAppend(a, b);
    assert (a + b)[0] == a[0];
    assert (a + b)[..|a|] == a;
    assert (a + b)[|a|..] == b;
    assert a[..|a|] == a;
    assert a[|a|..] == [];
  }

  /** A text made of word characters only is one run. */
  lemma ItalicsWord(w: string)
    requires w != []
    requires forall j :: 0 <= j < |w| ==> IsWordChar(w[j])
    ensures Italics(w) == Wrap(w)
  {
    assert WordRunLength(w) == |w|;
    assert w[..|w|] == w;
    assert w[|w|..] == [];
  }

  /** A maximal word run is wrapped in italic tags, with its own casing, exactly when it
      has an inner `italic` (see `Wrap`); the text around it is treated on its own. */
  lemma ItalicsRun(a: string, w: string, b: string)
    requires a == [] || !IsWordChar(a[|a| - 1])
    requires w != [] && forall j :: 0 <= j < |w| ==> IsWordChar(w[j])
    requires b == [] || !IsWordChar(b[0])
    ensures Italics(a + w + b) == Italics(a) + Wrap(w) + Italics(b)
  {
    Associative(a, w, b);
    ItalicsAppend(a, w + b);
    ItalicsAppend(w, b);
    ItalicsWord(w);
    Associative(Italics(a), Wrap(w), Italics(b));
  }

  /** An inner `italic` at `k`: a word character right before and right after it. */
  predicate QualifyingItalicAt(s: string, k: int) {
    ItalicAt(s, k) && 0 < k && k + 6 < |s| && IsWordChar(s[k - 1]) && IsWordChar(s[k + 6])
  }

  ghost predicate NoItalicWord(s: string) {
    forall k :: !QualifyingItalicAt(s, k)
  }

  lemma MatchHasQualifyingItalic(s: string, p: int, e: int)
    requires IsMatch(s, p, e)
    ensures exists k :: p < k < e - 6 && QualifyingItalicAt(s, k)
  {
    var k :| p < k && k + 6 < e && ItalicAt(s, k);
    assert QualifyingItalicAt(s, k);
  }

  /** The scan changes the text only where some word has an inner `italic`. */
  lemma {:induction false} ScanChangesOnlyItalicWords(s: string, p: int)
    requires 0 <= p <= |s|
    ensures RegexScan(s, p) == s[p..] || exists k :: QualifyingItalicAt(s, k)
    decreases |s| - p
  {
    if p < |s| {
      if exists e :: IsMatch(s, p, e) {
        var e :| IsMatch(s, p, e);
        MatchHasQualifyingItalic(s, p, e);
      } else {
        ScanChangesOnlyItalicWords(s, p + 1);
        assert s[p..] == [s[p]] + s[p + 1..];
      }
    }
  }

  lemma ItalicsIdentity(s: string)
    requires NoItalicWord(s)
    ensures Italics(s) == s
  {
    ItalicsIsRegexSub(s);
    ScanChangesOnlyItalicWords(s, 0);
  }

  /** Without an `l` there is no `italic` at all. */
  lemma NoItalicWithoutL(s: string)
    requires 'l' !in s && 'L' !in s
    ensures NoItalicWord(s)
  {
    forall k | ItalicAt(s, k) ensures s[k + 3] in s { }
  }

  /** An inner `italic` of `x + y` lies inside `x`, inside `y`, or in a word glued
      together from the end of `x` and the start of `y`. */
  lemma QualifyingItalicSplit(x: string, y: string, k: int)
    ensures QualifyingItalicAt(x + y, k) ==>
      QualifyingItalicAt(x, k) || QualifyingItalicAt(y, k - |x|) ||
      (x != [] && y != [] && IsWordChar(x[|x| - 1]) && IsWordChar(y[0]))
  {
    var s := x + y;
    if QualifyingItalicAt(s, k) {
      if k + 6 < |x| {
        assert QualifyingItalicAt(x, k);
      } else if k > |x| {
        assert QualifyingItalicAt(y, k - |x|);
      } else {
        assert IsWordChar(s[|x| - 1]) && IsWordChar(s[|x|]);
        assert s[|x| - 1] == x[|x| - 1] && s[|x|] == y[0];
      }
    }
  }

  /** Joining two texts without gluing two words together creates no inner `italic`. */
  lemma NoItalicWordAppend(x: string, y: string)
    requires NoItalicWord(x) && NoItalicWord(y)
    requires x == [] || y == [] || !IsWordChar(x[|x| - 1]) || !IsWordChar(y[0])
    ensures NoItalicWord(x + y)
  {
    forall k ensures !QualifyingItalicAt(x + y, k) {
      QualifyingItalicSplit(x, y, k);
    }
  }

  /** Wrapping only adds tag characters: every other character keeps its count. */
  lemma {:induction false} ItalicsCount(s: string, d: char)
    requires d !in "</i>"
    ensures Count(Italics(s), d) == Count(s, d)
    decreases |s|, 1
  {
    if s != [] {
      if IsWordChar(s[0]) {
        ItalicsCountRun(s, d);
      } else {
        ItalicsCountOther(s, d);
      }
    }
  }

  lemma {:induction false} ItalicsCountRun(s: string, d: char)
    requires d !in "</i>"
    requires s != [] && IsWordChar(s[0])
    ensures Count(Italics(s), d) == Count(s, d)
    decreases |s|, 0
  {
    var n := WordRunLength(s);
    var w := s[..n];
    assert Count(Italics(s[n..]), d) == Count(s[n..], d) by {
      ItalicsCount(s[n..], d);
    }
    assert Count(s, d) == Count(w, d) + Count(s[n..], d) by {
      assert s == w + s[n..];
      CountAppend(w, s[n..], d);
    }
    assert Count(Wrap(w), d) == Count(w, d) by {
      assert Count("<i>", d) == 0 && Count("</i>", d) == 0;
      CountAppend("<i>", w, d);
      CountAppend("<i>" + w, "</i>", d);
    }
    assert Count(Italics(s), d) == Count(Wrap(w), d) + Count(Italics(s[n..]), d) by {
      CountAppend(Wrap(w), Italics(s[n..]), d);
    }
  }

  lemma {:induction false} ItalicsCountOther(s: string, d: char)
    requires d !in "</i>"
    requires s != [] && !IsWordChar(s[0])
    ensures Count(Italics(s), d) == Count(s, d)
    decreases |s|, 0
  {
    assert Count(Italics(s[1..]), d) == Count(s[1..], d) by {
      ItalicsCount(s[1..], d);
    }
    assert Count(s, d) == Count([s[0]], d) + Count(s[1..], d) by {
      assert s == [s[0]] + s[1..];
      CountAppend([s[0]], s[1..], d);
    }
    assert Count(Italics(s), d) == Count([s[0]], d) + Count(Italics(s[1..]), d) by {
      CountAppend([s[0]], Italics(s[1..]), d);
    }
  }

  // ---------------------------------------------------------------------------
  // The whole transform
  // ---------------------------------------------------------------------------

  /** `format_text(text, add_space)`. */
  function FormatText(text: string, addSpace: bool): string {
    EscapeDollars(Italics(Newlines(Bullets(text), addSpace)))
  }

  /** No raw newline survives the transform. */
  lemma FormatTextNoNewline(text: string, addSpace: bool)
    ensures '\n' !in FormatText(text, addSpace)
  {
    var n := Newlines(Bullets(text), addSpace);
    var t := Italics(n);
    assert FormatText(text, addSpace) == EscapeDollars(t);
    assert Count(n, '\n') == 0;
    ItalicsCount(n, '\n');
    ReplaceCount(t, '$', "\\$", '\n');
  }

  /** The number of `$` is unchanged and each `$` of the result is escaped. */
  lemma FormatTextDollars(text: string, addSpace: bool)
    ensures Count(FormatText(text, addSpace), '$') == Count(text, '$')
    ensures DollarsEscaped(FormatText(text, addSpace))
  {
    var t := Italics(Newlines(Bullets(text), addSpace));
    assert FormatText(text, addSpace) == EscapeDollars(t);
    DollarsThroughFirstSteps(text, addSpace);
    EscapeDollarsEscaped(t);
  }

  /** Bullets, line breaks and italics neither add nor drop a `$`. */
  lemma DollarsThroughFirstSteps(text: string, addSpace: bool)
    ensures Count(Italics(Newlines(Bullets(text), addSpace)), '$') == Count(text, '$')
  {
    var b := Bullets(text);
    BulletsFromCount(text, true, '$');
    ReplaceCount(b, '\n', Break(addSpace), '$');
    ItalicsCount(Newlines(b, addSpace), '$');
  }

  /** A text with nothing for any step to rewrite comes back unchanged. */
  lemma FormatTextIdentity(text: string, addSpace: bool)
    requires forall i :: !BulletAt(text, i)
    requires '\n' !in text && '$' !in text
    requires NoItalicWord(text)
    ensures FormatText(text, addSpace) == text
  {
    BulletsPointwise(text);
    assert Bullets(text) == text;
    ReplaceAbsent(text, '\n', Break(addSpace));
    ItalicsIdentity(text);
    ReplaceAbsent(text, '$', "\\$");
  }
}
