/** The Python `str` operations the bot is built from: character classes,
    `upper`/`lower`, `strip`, `in`, `split` (with a separator and with none),
    `join`, `replace`, `endswith`, `int()` on digit strings and the `04d`
    format.  Letters and digits are the ASCII ones; whitespace is the full
    set Python's `str.isspace` accepts. */
module Text {
  import opened Wrappers

  // ---------------------------------------------------------------------------
  // Character classes
  // ---------------------------------------------------------------------------

  predicate IsUpper(c: char) { 'A' <= c <= 'Z' }
  predicate IsLower(c: char) { 'a' <= c <= 'z' }
  predicate IsLetter(c: char) { IsUpper(c) || IsLower(c) }
  predicate IsDigit(c: char) { '0' <= c <= '9' }

  /** The characters Python's `str.strip()` and `str.split()` treat as whitespace. */
  predicate IsSpace(c: char) {
    || '\t' <= c <= '\r'
    || '\U{1C}' <= c <= '\U{1F}'
    || c == ' '
    || c == '\U{85}'
    || c == '\U{A0}'
    || c == '\U{1680}'
    || '\U{2000}' <= c <= '\U{200A}'
    || c == '\U{2028}'
    || c == '\U{2029}'
    || c == '\U{202F}'
    || c == '\U{205F}'
    || c == '\U{3000}'
  }

  /** `str.isalpha()`: non-empty and every character a letter. */
  predicate IsAlpha(s: string) {
    |s| > 0 && forall i :: 0 <= i < |s| ==> IsLetter(s[i])
  }

  /** `str.isdigit()`: non-empty and every character a decimal digit. */
  predicate IsDigits(s: string) {
    |s| > 0 && forall i :: 0 <= i < |s| ==> IsDigit(s[i])
  }

  /** No lower-case letter anywhere: what `upper()` leaves behind. */
  predicate NoLower(s: string) {
    forall i :: 0 <= i < |s| ==> !IsLower(s[i])
  }

  /** No whitespace anywhere. */
  predicate NoSpace(s: string) {
    forall i :: 0 <= i < |s| ==> !IsSpace(s[i])
  }

  /** Some character is not whitespace: what `strip()` leaves non-empty. */
  predicate NotBlank(s: string) {
    exists i :: 0 <= i < |s| && !IsSpace(s[i])
  }

  /** The character `c` does not occur in `s`. */
  predicate Lacks(s: string, c: char) {
    forall i :: 0 <= i < |s| ==> s[i] != c
  }

  // ---------------------------------------------------------------------------
  // Case mapping
  // ---------------------------------------------------------------------------

  function UpperChar(c: char): (d: char)
    ensures !IsLower(d)
    ensures IsLetter(d) <==> IsLetter(c)
    ensures IsDigit(d) <==> IsDigit(c)
    ensures !IsLower(c) ==> d == c
  {
    if IsLower(c) then (c as int - 32) as char else c
  }

  function LowerChar(c: char): (d: char)
    ensures !IsUpper(d)
    ensures !IsUpper(c) ==> d == c
    ensures IsUpper(c) ==> UpperChar(d) == c
  {
    if IsUpper(c) then (c as int + 32) as char else c
  }

  /** `str.upper()`. */
  function Upper(s: string): (r: string)
    ensures |r| == |s| && NoLower(r)
    ensures forall i :: 0 <= i < |s| ==> r[i] == UpperChar(s[i])
  {
    seq(|s|, i requires 0 <= i < |s| => UpperChar(s[i]))
  }

  /** `str.lower()`. */
  function Lower(s: string): (r: string)
    ensures |r| == |s|
    ensures forall i :: 0 <= i < |s| ==> r[i] == LowerChar(s[i])
  {
    seq(|s|, i requires 0 <= i < |s| => LowerChar(s[i]))
  }

  /** Upper-casing a string that has no lower-case letter changes nothing. */
  lemma UpperFixesNoLower(s: string)
    requires NoLower(s)
    ensures Upper(s) == s
  {
  }

  /** Upper-casing neither makes nor breaks "all letters" or "all digits". */
  lemma UpperKeepsClasses(s: string)
    ensures IsAlpha(Upper(s)) <==> IsAlpha(s)
    ensures IsDigits(Upper(s)) <==> IsDigits(s)
  {
    var u := Upper(s);
    if IsAlpha(s) {
      forall i | 0 <= i < |u| ensures IsLetter(u[i]) {
        assert u[i] == UpperChar(s[i]);
      }
    }
    if IsAlpha(u) {
      forall i | 0 <= i < |s| ensures IsLetter(s[i]) {
        assert IsLetter(UpperChar(s[i]));
      }
    }
    if IsDigits(u) {
      forall i | 0 <= i < |s| ensures IsDigit(s[i]) {
        assert IsDigit(UpperChar(s[i]));
      }
    }
  }

  // ---------------------------------------------------------------------------
  // strip()
  // ---------------------------------------------------------------------------

  /** `str.lstrip()`. */
  function TrimLeft(s: string): (r: string)
    ensures |r| <= |s|
  {
    if |s| > 0 && IsSpace(s[0]) then TrimLeft(s[1..]) else s
  }

  /** `str.rstrip()`. */
  function TrimRight(s: string): (r: string)
    ensures |r| <= |s|
  {
    if |s| > 0 && IsSpace(s[|s| - 1]) then TrimRight(s[..|s| - 1]) else s
  }

  /** `lstrip()` removes exactly the leading whitespace: what remains is a
      suffix that is empty or starts with non-whitespace. */
  lemma {:induction false} TrimLeftSpec(s: string)
    ensures TrimLeft(s) == s[|s| - |TrimLeft(s)|..]
    ensures TrimLeft(s) == [] || !IsSpace(TrimLeft(s)[0])
    ensures forall i :: 0 <= i < |s| - |TrimLeft(s)| ==> IsSpace(s[i])
    decreases |s|
  {
    if |s| > 0 && IsSpace(s[0]) {
      TrimLeftSpec(s[1..]);
      var r := TrimLeft(s[1..]);
      assert s[1..][|s| - 1 - |r|..] == s[|s| - |r|..];
      forall i | 1 <= i < |s| - |r| ensures IsSpace(s[i]) {
        assert s[i] == s[1..][i - 1];
      }
    }
  }

  /** `rstrip()` removes exactly the trailing whitespace: what remains is a
      prefix that is empty or ends with non-whitespace. */
  lemma {:induction false} TrimRightSpec(s: string)
    ensures TrimRight(s) == s[..|TrimRight(s)|]
    ensures TrimRight(s) == [] || !IsSpace(TrimRight(s)[|TrimRight(s)| - 1])
    ensures forall i :: |TrimRight(s)| <= i < |s| ==> IsSpace(s[i])
    decreases |s|
  {
    if |s| > 0 && IsSpace(s[|s| - 1]) {
      var p := s[..|s| - 1];
      TrimRightSpec(p);
      var r := TrimRight(p);
      assert p[..|r|] == s[..|r|];
      forall i | |r| <= i < |s| - 1 ensures IsSpace(s[i]) {
        assert s[i] == p[i];
      }
    }
  }

  /** `str.strip()`. */
  function Strip(s: string): string {
    TrimRight(TrimLeft(s))
  }

  /** A string that neither starts nor ends with whitespace. */
  predicate Stripped(s: string) {
    s == [] || (!IsSpace(s[0]) && !IsSpace(s[|s| - 1]))
  }

  /** What `strip()` returns is a slice of its argument, bordered by nothing
      but whitespace, that itself starts and ends with non-whitespace. */
  lemma StripIsSlice(s: string) returns (lo: nat, hi: nat)
    ensures lo <= hi <= |s| && Strip(s) == s[lo..hi]
    ensures Stripped(Strip(s))
    ensures forall i :: 0 <= i < lo ==> IsSpace(s[i])
    ensures forall i :: hi <= i < |s| ==> IsSpace(s[i])
  {
    var l := TrimLeft(s);
    TrimLeftSpec(s);
    lo := |s| - |l|;
    var r := TrimRight(l);
    TrimRightSpec(l);
    hi := lo + |r|;
    assert r == s[lo..hi] by {
      assert l == s[lo..];
      assert r == l[..|r|];
    }
    forall i | hi <= i < |s| ensures IsSpace(s[i]) {
      assert s[i] == l[i - lo];
    }
    assert Stripped(r) by {
      if r != [] {
        assert r[0] == l[0];
      }
    }
  }

  /** A character absent from `s`, except maybe as a trailing whitespace
      character, is absent from `Strip(s)`. */
  lemma StripLacks(s: string, c: char)
    requires Lacks(s, c) || (s != [] && IsSpace(s[|s| - 1]) && Lacks(s[..|s| - 1], c))
    ensures Lacks(Strip(s), c)
  {
    var lo, hi := StripIsSlice(s);
    if !Lacks(s, c) && lo < hi {
      assert hi < |s|;
      assert forall i :: 0 <= i < hi - lo ==> Strip(s)[i] == s[..|s| - 1][lo + i];
    } else {
      assert forall i :: 0 <= i < hi - lo ==> Strip(s)[i] == s[lo + i];
    }
  }

  lemma StripIsStripped(s: string)
    ensures Stripped(Strip(s))
  {
    var lo, hi := StripIsSlice(s);
  }

  /** A pattern absent from `s` is absent from `Strip(s)`. */
  lemma StripKeepsAbsent(s: string, pat: string)
    requires !Contains(s, pat)
    ensures !Contains(Strip(s), pat)
  {
    var lo, hi := StripIsSlice(s);
    forall j: nat | OccursAt(Strip(s), pat, j) ensures false {
      OccursInSlice(s, pat, lo, hi, j);
    }
  }

  /** `rstrip()` of `p + q` only touches `q` when `q` has a non-whitespace
      character. */
  lemma {:induction false} TrimRightAppend(p: string, q: string)
    requires NotBlank(q)
    ensures TrimRight(p + q) == p + TrimRight(q)
    decreases |q|
  {
    var s := p + q;
    if IsSpace(q[|q| - 1]) {
      var q' := q[..|q| - 1];
      assert NotBlank(q') by {
        var i :| 0 <= i < |q| && !IsSpace(q[i]);
        assert i < |q'| && q'[i] == q[i];
      }
      assert s[..|s| - 1] == p + q';
      TrimRightAppend(p, q');
    } else {
      assert s[|s| - 1] == q[|q| - 1];
    }
  }

  /** A text with a non-whitespace character keeps one after `rstrip()`. */
  lemma TrimRightNotBlank(q: string)
    requires NotBlank(q)
    ensures TrimRight(q) != [] && !IsSpace(TrimRight(q)[|TrimRight(q)| - 1])
  {
    TrimRightSpec(q);
    var i :| 0 <= i < |q| && !IsSpace(q[i]);
    assert i < |TrimRight(q)|;
  }

  /** `strip()` drops one trailing whitespace character after a stripped text. */
  lemma StripTrailing(s: string, c: char)
    requires Stripped(s) && s != [] && IsSpace(c)
    ensures Strip(s + [c]) == s
  {
    var t := s + [c];
    assert TrimLeft(t) == t;
    assert t[..|t| - 1] == s;
    assert TrimRight(t) == TrimRight(s);
  }

  /** `strip()` is the identity on a string with nothing to strip. */
  lemma StripStripped(s: string)
    requires Stripped(s)
    ensures Strip(s) == s
  {
  }

  /** `strip()` of a string with no whitespace at all is the string itself. */
  lemma StripNoSpace(s: string)
    requires NoSpace(s)
    ensures Strip(s) == s
  {
    StripStripped(s);
  }

  // ---------------------------------------------------------------------------
  // Substring search: `pat in s`
  // ---------------------------------------------------------------------------

  /** `pat` occurs in `s` starting at index `i`. */
  predicate OccursAt(s: string, pat: string, i: nat) {
    i + |pat| <= |s| && s[i..i + |pat|] == pat
  }

  /** The leftmost occurrence of `pat` in `s` at or after `from` (`str.find`). */
  function FindFrom(s: string, pat: string, from: nat): (r: Option<nat>)
    decreases |s| - from
    ensures r.Some? ==> from <= r.value && OccursAt(s, pat, r.value)
    ensures r.Some? ==> forall j :: from <= j < r.value ==> !OccursAt(s, pat, j)
    ensures r.None? ==> forall j :: from <= j ==> !OccursAt(s, pat, j)
  {
    if from + |pat| > |s| then None
    else if s[from..from + |pat|] == pat then Some(from)
    else FindFrom(s, pat, from + 1)
  }

  function Find(s: string, pat: string): (r: Option<nat>)
    ensures r.Some? ==> OccursAt(s, pat, r.value)
    ensures r.Some? ==> forall j :: 0 <= j < r.value ==> !OccursAt(s, pat, j)
    ensures r.None? ==> forall j: nat :: !OccursAt(s, pat, j)
  {
    FindFrom(s, pat, 0)
  }

  /** Python's `pat in s`. */
  predicate Contains(s: string, pat: string)
    ensures Contains(s, pat) <==> exists j: nat :: OccursAt(s, pat, j)
  {
    Find(s, pat).Some?
  }

  /** An occurrence inside the slice `s[lo..hi]` is an occurrence in `s`. */
  lemma OccursInSlice(s: string, pat: string, lo: nat, hi: nat, j: nat)
    requires lo <= hi <= |s| && OccursAt(s[lo..hi], pat, j)
    ensures OccursAt(s, pat, lo + j)
  {
    var t := s[lo..hi];
    assert j + |pat| <= |t|;
    forall k | j <= k < j + |pat| ensures t[k] == s[lo + k] {
    }
    assert t[j..j + |pat|] == s[lo + j..lo + j + |pat|];
  }

  // ---------------------------------------------------------------------------
  // join / split
  // ---------------------------------------------------------------------------

  /** `sep.join(parts)`. */
  function Join(parts: seq<string>, sep: string): string
    decreases |parts|
  {
    if |parts| == 0 then ""
    else if |parts| == 1 then parts[0]
    else parts[0] + sep + Join(parts[1..], sep)
  }

  lemma JoinTwo(a: string, b: string, sep: string)
    ensures Join([a, b], sep) == a + sep + b
  {
    assert [a, b][1..] == [b];
  }

  lemma JoinThree(a: string, b: string, c: string, sep: string)
    ensures Join([a, b, c], sep) == a + sep + b + sep + c
  {
    assert [a, b, c][1..] == [b, c];
    JoinTwo(b, c, sep);
  }

  /** `s.split(sep, maxsplit)`: cut at the leftmost occurrence of `sep`, at
      most `maxsplit` times (a negative `maxsplit` means no limit). */
  function Split(s: string, sep: string, maxsplit: int): (parts: seq<string>)
    requires |sep| > 0
    decreases |s|
    ensures SplitShape(s, sep, maxsplit, parts)
  {
    if maxsplit == 0 then [s]
    else match Find(s, sep)
      case None => [s]
      case Some(i) =>
        var rest := Split(s[i + |sep|..], sep, if maxsplit < 0 then maxsplit else maxsplit - 1);
        SplitStep(s, sep, i, rest, maxsplit);
        [s[..i]] + rest
  }

  /** A character absent from `s` is absent from every piece of its split. */
  lemma {:induction false} SplitLacks(s: string, sep: string, maxsplit: int, c: char)
    requires |sep| > 0 && Lacks(s, c)
    ensures forall k :: 0 <= k < |Split(s, sep, maxsplit)| ==> Lacks(Split(s, sep, maxsplit)[k], c)
    decreases |s|
  {
    if maxsplit != 0 {
      match Find(s, sep)
      case None =>
      case Some(i) =>
        var tail := s[i + |sep|..];
        var m := if maxsplit < 0 then maxsplit else maxsplit - 1;
        SplitLacks(tail, sep, m, c);
        var parts := Split(s, sep, maxsplit);
        assert parts == [s[..i]] + Split(tail, sep, m);
    }
  }

  /** What a split promises: at least one part and at most `maxsplit + 1`
      (when `maxsplit` is not negative), the parts join back to `s`, every
      part but the last is free of `sep`, and so is the last unless the
      limit was reached. */
  predicate SplitShape(s: string, sep: string, maxsplit: int, parts: seq<string>) {
    && |parts| >= 1
    && (maxsplit >= 0 ==> |parts| <= maxsplit + 1)
    && Join(parts, sep) == s
    && (forall k :: 0 <= k < |parts| - 1 ==> !Contains(parts[k], sep))
    && ((maxsplit < 0 || |parts| <= maxsplit) ==> !Contains(parts[|parts| - 1], sep))
  }

  /** One cut of `Split`: the piece before the leftmost occurrence, then the
      split of the remainder, has the properties `Split` promises. */
  lemma SplitStep(s: string, sep: string, i: nat, rest: seq<string>, maxsplit: int)
    requires |sep| > 0 && maxsplit != 0 && OccursAt(s, sep, i)
    requires forall j :: 0 <= j < i ==> !OccursAt(s, sep, j)
    requires |rest| >= 1 && Join(rest, sep) == s[i + |sep|..]
    requires forall k :: 0 <= k < |rest| - 1 ==> !Contains(rest[k], sep)
    requires maxsplit > 0 ==> |rest| <= maxsplit
    requires (maxsplit < 0 || |rest| <= maxsplit - 1) ==> !Contains(rest[|rest| - 1], sep)
    ensures SplitShape(s, sep, maxsplit, [s[..i]] + rest)
  {
    var parts := [s[..i]] + rest;
    assert Join(parts, sep) == s by {
      assert parts[1..] == rest;
      assert s == s[..i] + sep + s[i + |sep|..] by {
        assert s[i..i + |sep|] == sep;
      }
    }
    forall k | 0 <= k < |parts| - 1 ensures !Contains(parts[k], sep) {
      if k == 0 {
        NoOccurrenceBefore(s, sep, i);
      } else {
        assert parts[k] == rest[k - 1];
      }
    }
    assert parts[|parts| - 1] == rest[|rest| - 1];
  }

  /** The prefix before the leftmost occurrence contains no occurrence. */
  lemma NoOccurrenceBefore(s: string, pat: string, i: nat)
    requires i <= |s| && |pat| > 0
    requires forall j :: 0 <= j < i ==> !OccursAt(s, pat, j)
    ensures !Contains(s[..i], pat)
  {
    forall j: nat | OccursAt(s[..i], pat, j) ensures false {
      OccursInSlice(s, pat, 0, i, j);
    }
  }

  /** Splitting a join of separator-free parts gives the parts back.  When
      the split limit is exactly the number of cuts, the last part is kept
      whole whatever it contains; otherwise it must be free of `sep` too. */
  lemma {:induction false} SplitJoin(parts: seq<string>, sep: string, maxsplit: int)
    requires |sep| > 0 && |parts| >= 1
    requires forall k :: 0 <= k < |parts| - 1 ==> !Contains(parts[k] + sep[..|sep| - 1], sep)
    requires maxsplit == |parts| - 1
             || ((maxsplit < 0 || maxsplit >= |parts|) && !Contains(parts[|parts| - 1], sep))
    ensures Split(Join(parts, sep), sep, maxsplit) == parts
    decreases |parts|
  {
    if |parts| > 1 {
      var rest := parts[1..];
      var m := if maxsplit < 0 then maxsplit else maxsplit - 1;
      assert forall k :: 0 <= k < |rest| - 1 ==> rest[k] == parts[k + 1];
      assert rest[|rest| - 1] == parts[|parts| - 1];
      SplitJoin(rest, sep, m);
      SplitCut(parts[0], sep, Join(rest, sep), maxsplit);
      assert parts == [parts[0]] + rest;
    }
  }

  /** One cut of `Split` on `p + sep + tail` when `p` ends before the
      leftmost occurrence of `sep`. */
  lemma SplitCut(p: string, sep: string, tail: string, maxsplit: int)
    requires |sep| > 0 && maxsplit != 0 && !Contains(p + sep[..|sep| - 1], sep)
    ensures Split(p + sep + tail, sep, maxsplit)
            == [p] + Split(tail, sep, if maxsplit < 0 then maxsplit else maxsplit - 1)
  {
    var s := p + sep + tail;
    FindAfterClean(p, sep, tail);
    assert s[..|p|] == p;
    assert s[|p| + |sep|..] == tail;
  }

  /** When `p + sep[..|sep|-1]` is free of `sep`, the leftmost occurrence of
      `sep` in `p + sep + tail` is right after `p`. */
  lemma FindAfterClean(p: string, sep: string, tail: string)
    requires |sep| > 0 && !Contains(p + sep[..|sep| - 1], sep)
    ensures Find(p + sep + tail, sep) == Some(|p|)
  {
    var s := p + sep + tail;
    assert OccursAt(s, sep, |p|) by {
      assert s[|p|..|p| + |sep|] == sep;
    }
    var q := p + sep[..|sep| - 1];
    forall j | 0 <= j < |p| ensures !OccursAt(s, sep, j) {
      assert s[j..j + |sep|] == q[j..j + |sep|];
      assert !OccursAt(q, sep, j);
    }
  }

  /** Index of the first `c` in `s` at or after `from`, or `|s|` (`str.find`
      on one character, with "not found" as the length). */
  function IndexOf(s: string, c: char, from: nat): (k: nat)
    requires from <= |s|
    decreases |s| - from
    ensures from <= k <= |s|
    ensures k < |s| ==> s[k] == c
    ensures forall i :: from <= i < k ==> s[i] != c
  {
    if from == |s| || s[from] == c then from else IndexOf(s, c, from + 1)
  }

  /** Index of the first whitespace character of `s` at or after `from`, or `|s|`. */
  function SpaceIndex(s: string, from: nat): (k: nat)
    requires from <= |s|
    decreases |s| - from
    ensures from <= k <= |s|
    ensures k < |s| ==> IsSpace(s[k])
    ensures forall i :: from <= i < k ==> !IsSpace(s[i])
  {
    if from == |s| || IsSpace(s[from]) then from else SpaceIndex(s, from + 1)
  }

  /** `s.split()`: the maximal runs of non-whitespace, in order. */
  function SplitWords(s: string): (words: seq<string>)
    decreases |s|
  {
    var t := TrimLeft(s);
    if t == [] then []
    else
      TrimLeftSpec(s);
      var k := SpaceIndex(t, 0);
      [t[..k]] + SplitWords(t[k..])
  }

  /** Every word is non-empty and free of whitespace. */
  predicate AreWords(words: seq<string>) {
    forall k :: 0 <= k < |words| ==> |words[k]| > 0 && NoSpace(words[k])
  }

  lemma ConsWords(word: string, rest: seq<string>)
    requires |word| > 0 && NoSpace(word) && AreWords(rest)
    ensures AreWords([word] + rest)
  {
    var ws := [word] + rest;
    forall m | 0 <= m < |ws| ensures |ws[m]| > 0 && NoSpace(ws[m]) {
      if m > 0 {
        assert ws[m] == rest[m - 1];
      }
    }
  }

  /** Every word `split()` returns is non-empty and free of whitespace. */
  lemma {:induction false} SplitWordsShape(s: string)
    ensures AreWords(SplitWords(s))
    decreases |s|
  {
    var t := TrimLeft(s);
    TrimLeftSpec(s);
    if t != [] {
      var k := SpaceIndex(t, 0);
      var word := t[..k];
      assert NoSpace(word);
      SplitWordsShape(t[k..]);
      ConsWords(word, SplitWords(t[k..]));
    }
  }

  /** Leading whitespace does not change `split()`. */
  lemma SplitWordsSkipsSpace(c: char, s: string)
    requires IsSpace(c)
    ensures SplitWords([c] + s) == SplitWords(s)
  {
    assert ([c] + s)[1..] == s;
  }

  /** Every character of `a` occurs in `b`. */
  predicate CharsIn(a: string, b: string) {
    forall i :: 0 <= i < |a| ==> a[i] in b
  }

  lemma SliceCharsIn(s: string, lo: nat, hi: nat)
    requires lo <= hi <= |s|
    ensures CharsIn(s[lo..hi], s)
  {
    forall i | 0 <= i < hi - lo ensures s[lo..hi][i] in s {
      assert s[lo..hi][i] == s[lo + i];
    }
  }

  lemma CharsInTrans(a: string, b: string, c: string)
    requires CharsIn(a, b) && CharsIn(b, c)
    ensures CharsIn(a, c)
  {
    forall i | 0 <= i < |a| ensures a[i] in c {
      var j :| 0 <= j < |b| && b[j] == a[i];
    }
  }

  /** Text made of characters of a text without lower-case letters has none. */
  lemma CharsInNoLower(a: string, b: string)
    requires CharsIn(a, b) && NoLower(b)
    ensures NoLower(a)
  {
    forall i | 0 <= i < |a| ensures !IsLower(a[i]) {
      var j :| 0 <= j < |b| && b[j] == a[i];
    }
  }

  lemma StripCharsIn(s: string)
    ensures CharsIn(Strip(s), s)
  {
    var lo, hi := StripIsSlice(s);
    SliceCharsIn(s, lo, hi);
  }

  /** The pieces of a split are made of the text's characters. */
  lemma {:induction false} SplitCharsIn(s: string, sep: string, maxsplit: int)
    requires |sep| > 0
    ensures forall k :: 0 <= k < |Split(s, sep, maxsplit)| ==> CharsIn(Split(s, sep, maxsplit)[k], s)
    decreases |s|
  {
    var parts := Split(s, sep, maxsplit);
    if maxsplit == 0 || Find(s, sep).None? {
      SliceCharsIn(s, 0, |s|);
      assert s[0..|s|] == s;
    } else {
      var i := Find(s, sep).value;
      var tail := s[i + |sep|..];
      var m := if maxsplit < 0 then maxsplit else maxsplit - 1;
      SplitCharsIn(tail, sep, m);
      SliceCharsIn(s, 0, i);
      assert s[0..i] == s[..i];
      SliceCharsIn(s, i + |sep|, |s|);
      assert s[i + |sep|..|s|] == tail;
      assert parts == [s[..i]] + Split(tail, sep, m);
      forall k | 1 <= k < |parts| ensures CharsIn(parts[k], s) {
        assert parts[k] == Split(tail, sep, m)[k - 1];
        CharsInTrans(parts[k], tail, s);
      }
    }
  }

  /** The words of `split()` are made of the text's characters. */
  lemma {:induction false} SplitWordsCharsIn(s: string)
    ensures forall k :: 0 <= k < |SplitWords(s)| ==> CharsIn(SplitWords(s)[k], s)
    decreases |s|
  {
    var t := TrimLeft(s);
    TrimLeftSpec(s);
    if t != [] {
      var k := SpaceIndex(t, 0);
      var ws := SplitWords(s);
      var rest := SplitWords(t[k..]);
      assert ws == [t[..k]] + rest;
      SliceCharsIn(s, |s| - |t|, |s|);
      SliceCharsIn(t, 0, k);
      assert t[0..k] == t[..k];
      CharsInTrans(t[..k], t, s);
      SliceCharsIn(t, k, |t|);
      assert t[k..|t|] == t[k..];
      CharsInTrans(t[k..], t, s);
      SplitWordsCharsIn(t[k..]);
      ConsCharsIn(t[..k], rest, t[k..], s);
    }
  }

  /** Prefixing a word drawn from `s` to words drawn from a part of `s`. */
  lemma ConsCharsIn(w: string, rest: seq<string>, u: string, s: string)
    requires CharsIn(w, s) && CharsIn(u, s)
    requires forall m :: 0 <= m < |rest| ==> CharsIn(rest[m], u)
    ensures forall m :: 0 <= m < |[w] + rest| ==> CharsIn(([w] + rest)[m], s)
  {
    forall m | 1 <= m < |[w] + rest| ensures CharsIn(([w] + rest)[m], s) {
      assert ([w] + rest)[m] == rest[m - 1];
      CharsInTrans(rest[m - 1], u, s);
    }
  }

  /** Joining pieces that lack `c` with a separator that lacks `c`. */
  lemma {:induction false} JoinLacks(parts: seq<string>, sep: string, c: char)
    requires Lacks(sep, c) && forall k :: 0 <= k < |parts| ==> Lacks(parts[k], c)
    ensures Lacks(Join(parts, sep), c)
    decreases |parts|
  {
    if |parts| > 1 {
      JoinLacks(parts[1..], sep, c);
    }
  }

  /** Joining pieces without lower-case letters with such a separator. */
  lemma {:induction false} JoinNoLower(parts: seq<string>, sep: string)
    requires NoLower(sep) && forall k :: 0 <= k < |parts| ==> NoLower(parts[k])
    ensures NoLower(Join(parts, sep))
    decreases |parts|
  {
    if |parts| > 1 {
      JoinNoLower(parts[1..], sep);
    }
  }

  /** Splitting words joined by single blanks gives the words back. */
  lemma {:induction false} SplitWordsJoin(words: seq<string>)
    requires AreWords(words)
    ensures SplitWords(Join(words, " ")) == words
    decreases |words|
  {
    if |words| == 0 {
    } else {
      var w := words[0];
      var s := Join(words, " ");
      var tail := if |words| == 1 then "" else " " + Join(words[1..], " ");
      assert s == w + tail;
      assert TrimLeft(s) == s;
      assert SpaceIndex(s, 0) == |w| by {
        if |words| > 1 {
          assert s[|w|] == ' ';
        }
      }
      assert s[..|w|] == w;
      assert s[|w|..] == tail;
      SplitWordsJoin(words[1..]);
      if |words| > 1 {
        SplitWordsSkipsSpace(' ', Join(words[1..], " "));
      }
      assert words == [w] + words[1..];
    }
  }

  // ---------------------------------------------------------------------------
  // replace / endswith
  // ---------------------------------------------------------------------------

  /** `s.replace(target, by)`: every non-overlapping occurrence, left to right. */
  function Replace(s: string, target: string, repl: string): string
    requires |target| > 0
    decreases |s|
  {
    match Find(s, target)
    case None => s
    case Some(i) => s[..i] + repl + Replace(s[i + |target|..], target, repl)
  }

  /** `replace` is splitting on the target and joining with the replacement. */
  lemma {:induction false} ReplaceIsSplitJoin(s: string, target: string, repl: string)
    requires |target| > 0
    ensures Replace(s, target, repl) == Join(Split(s, target, -1), repl)
    decreases |s|
  {
    match Find(s, target)
    case None =>
    case Some(i) =>
      var rest := Split(s[i + |target|..], target, -1);
      ReplaceIsSplitJoin(s[i + |target|..], target, repl);
      assert Split(s, target, -1) == [s[..i]] + rest;
      assert ([s[..i]] + rest)[1..] == rest;
  }

  /** Replacing a one-character target by one character is a pointwise map. */
  lemma {:induction false} ReplaceChar(s: string, c: char, d: char)
    ensures Replace(s, [c], [d]) == seq(|s|, i requires 0 <= i < |s| => if s[i] == c then d else s[i])
    decreases |s|
  {
    var m := seq(|s|, i requires 0 <= i < |s| => if s[i] == c then d else s[i]);
    match Find(s, [c])
    case None =>
      forall i | 0 <= i < |s| ensures s[i] != c {
        assert !OccursAt(s, [c], i);
        assert s[i..i + 1] == [s[i]];
      }
    case Some(i) =>
      var t := s[i + 1..];
      ReplaceChar(t, c, d);
      forall j | 0 <= j < i ensures s[j] != c {
        assert !OccursAt(s, [c], j);
        assert s[j..j + 1] == [s[j]];
      }
      assert s[i..i + 1] == [c];
      assert Replace(s, [c], [d]) == s[..i] + [d] + Replace(t, [c], [d]);
  }

  /** `s.endswith(suffix)`. */
  predicate EndsWith(s: string, suffix: string) {
    |suffix| <= |s| && s[|s| - |suffix|..] == suffix
  }

  // ---------------------------------------------------------------------------
  // int() and the `04d` format
  // ---------------------------------------------------------------------------

  function DigitValue(c: char): nat
    requires IsDigit(c)
  {
    c as int - '0' as int
  }

  function DigitChar(d: nat): (c: char)
    requires d < 10
    ensures IsDigit(c) && DigitValue(c) == d
  {
    ('0' as int + d) as char
  }

  /** `int(s)` for a string of decimal digits (leading zeros allowed). */
  function ParseNat(s: string): nat
    requires forall i :: 0 <= i < |s| ==> IsDigit(s[i])
    decreases |s|
  {
    if s == [] then 0 else ParseNat(s[..|s| - 1]) * 10 + DigitValue(s[|s| - 1])
  }

  /** `f"{n:04d}"` for 0 <= n <= 9999. */
  function Pad4(n: nat): (r: string)
    requires n < 10000
    ensures |r| == 4 && IsDigits(r)
  {
    var tens := n / 10;
    var hundreds := tens / 10;
    var thousands := hundreds / 10;
    [DigitChar(thousands), DigitChar(hundreds % 10), DigitChar(tens % 10), DigitChar(n % 10)]
  }

  /** The value of four digits, written out positionally. */
  lemma ParseNat4(s: string)
    requires |s| == 4 && IsDigits(s)
    ensures ParseNat(s) == DigitValue(s[0]) * 1000 + DigitValue(s[1]) * 100
                           + DigitValue(s[2]) * 10 + DigitValue(s[3])
    ensures ParseNat(s) < 10000
  {
    var d0, d1, d2, d3 := DigitValue(s[0]), DigitValue(s[1]), DigitValue(s[2]), DigitValue(s[3]);
    assert s[..3][..2] == s[..2];
    assert s[..2][..1] == s[..1];
    assert s[..1][..0] == [];
    assert ParseNat(s[..1]) == d0;
    assert ParseNat(s[..2]) == d0 * 10 + d1;
    assert ParseNat(s[..3]) == (d0 * 10 + d1) * 10 + d2;
    assert ParseNat(s) == ((d0 * 10 + d1) * 10 + d2) * 10 + d3;
  }

  /** Reading back a padded number gives the number. */
  lemma ParsePad4(n: nat)
    requires n < 10000
    ensures ParseNat(Pad4(n)) == n
  {
    var p := Pad4(n);
    ParseNat4(p);
    var tens := n / 10;
    var hundreds := tens / 10;
    var thousands := hundreds / 10;
    assert DigitValue(p[0]) == thousands;
    assert DigitValue(p[1]) == hundreds % 10;
    assert DigitValue(p[2]) == tens % 10;
    assert DigitValue(p[3]) == n % 10;
    assert n == tens * 10 + n % 10;
    assert tens == hundreds * 10 + tens % 10;
    assert hundreds == thousands * 10 + hundreds % 10;
  }

  /** Padding the value of four digits gives the digits back. */
  lemma Pad4Parse(s: string)
    requires |s| == 4 && IsDigits(s)
    ensures ParseNat(s) < 10000 && Pad4(ParseNat(s)) == s
  {
    ParseNat4(s);
    var d0, d1, d2, d3 := DigitValue(s[0]), DigitValue(s[1]), DigitValue(s[2]), DigitValue(s[3]);
    var n := ParseNat(s);
    assert n == (d0 * 100 + d1 * 10 + d2) * 10 + d3;
    assert n / 10 == d0 * 100 + d1 * 10 + d2 && n % 10 == d3;
    assert (n / 10) / 10 == d0 * 10 + d1 && (n / 10) % 10 == d2;
    assert ((n / 10) / 10) / 10 == d0 && ((n / 10) / 10) % 10 == d1;
    var p := Pad4(n);
    assert p[0] == s[0] && p[1] == s[1] && p[2] == s[2] && p[3] == s[3];
  }
}
