/** Text files as the program reads and writes them: the lines written with
    `f.write(line + '\n')`, the universal-newline translation of text-mode
    reading, and `readlines()`. */
module TextFile {
  import opened Text

  /** `lines` written one per line, each followed by "\n". */
  function WriteLines(lines: seq<string>): string
    decreases |lines|
  {
    if lines == [] then "" else lines[0] + "\n" + WriteLines(lines[1..])
  }

  /** Text-mode reading: "\r\n" and a lone "\r" both become "\n". */
  function Translate(s: string): string
    decreases |s|
  {
    if s == [] then ""
    else if s[0] == '\r' then
      if |s| > 1 && s[1] == '\n' then "\n" + Translate(s[2..]) else "\n" + Translate(s[1..])
    else [s[0]] + Translate(s[1..])
  }

  /** Translated text holds no carriage return. */
  lemma {:induction false} TranslateLacksCR(s: string)
    ensures Lacks(Translate(s), '\r')
    decreases |s|
  {
    if s != [] {
      if s[0] == '\r' && |s| > 1 && s[1] == '\n' {
        TranslateLacksCR(s[2..]);
      } else {
        TranslateLacksCR(s[1..]);
      }
    }
  }

  /** Text without carriage returns passes through the translation unchanged. */
  lemma {:induction false} TranslateKeeps(a: string, b: string)
    requires Lacks(a, '\r')
    ensures Translate(a + b) == a + Translate(b)
    decreases |a|
  {
    if a != [] {
      assert (a + b)[1..] == a[1..] + b;
      TranslateKeeps(a[1..], b);
    } else {
      assert a + b == b;
    }
  }

  /** `f.readlines()` on translated text: every line keeps its "\n", and a
      last piece without one is a line too. */
  function ReadLines(t: string): (lines: seq<string>)
    decreases |t|
  {
    if t == [] then []
    else
      var k := IndexOf(t, '\n', 0);
      if k == |t| then [t] else [t[..k + 1]] + ReadLines(t[k + 1..])
  }

  /** Concatenation of strings. */
  function Flatten(parts: seq<string>): string
    decreases |parts|
  {
    if parts == [] then "" else parts[0] + Flatten(parts[1..])
  }

  /** `readlines()` loses nothing: the lines put back together are the text. */
  lemma {:induction false} ReadLinesFlatten(t: string)
    ensures Flatten(ReadLines(t)) == t
    ensures ReadLines(t) == [] <==> t == []
    decreases |t|
  {
    if t != [] {
      var k := IndexOf(t, '\n', 0);
      if k < |t| {
        var rest := t[k + 1..];
        ReadLinesFlatten(rest);
        assert t == t[..k + 1] + rest;
      }
    }
  }

  /** A line is not empty, has a newline at most as its last character, and
      carries no carriage return when the text has none. */
  predicate IsLine(line: string, t: string) {
    && line != []
    && Lacks(line[..|line| - 1], '\n')
    && (Lacks(t, '\r') ==> Lacks(line, '\r'))
  }

  lemma {:induction false} ReadLinesShape(t: string)
    ensures forall j :: 0 <= j < |ReadLines(t)| ==> IsLine(ReadLines(t)[j], t)
    decreases |t|
  {
    if t != [] {
      var k := IndexOf(t, '\n', 0);
      var ls := ReadLines(t);
      var first := if k == |t| then t else t[..k + 1];
      assert ls[0] == first;
      if k < |t| {
        assert first[..|first| - 1] == t[..k];
      }
      assert IsLine(first, t);
      if k < |t| {
        var rest := t[k + 1..];
        ReadLinesShape(rest);
        assert ls[1..] == ReadLines(rest);
        assert Lacks(t, '\r') ==> Lacks(rest, '\r');
        forall j | 1 <= j < |ls| ensures IsLine(ls[j], t) {
          assert ls[j] == ReadLines(rest)[j - 1];
        }
      }
    }
  }

  /** Reading back what `WriteLines` wrote gives every line with its "\n". */
  lemma {:induction false} ReadWritten(lines: seq<string>)
    requires forall j :: 0 <= j < |lines| ==> Lacks(lines[j], '\n')
    ensures |ReadLines(WriteLines(lines))| == |lines|
    ensures forall j :: 0 <= j < |lines| ==> ReadLines(WriteLines(lines))[j] == lines[j] + "\n"
    decreases |lines|
  {
    if lines != [] {
      var l := lines[0];
      var rest := WriteLines(lines[1..]);
      var t := WriteLines(lines);
      assert t == l + "\n" + rest;
      assert IndexOf(t, '\n', 0) == |l| by {
        assert t[|l|] == '\n';
        assert forall i :: 0 <= i < |l| ==> t[i] == l[i];
      }
      assert t[..|l| + 1] == l + "\n";
      assert t[|l| + 1..] == rest;
      assert forall j :: 0 <= j < |lines| - 1 ==> lines[1..][j] == lines[j + 1];
      ReadWritten(lines[1..]);
    }
  }
}
