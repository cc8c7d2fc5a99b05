/** File names in the converter's dialogue: which uploads are taken, the
    default name offered for the CSV file, and the clean-up of a name the
    user types. */
module Names {
  import opened Wrappers
  import opened Text

  /** Characters that a typed name may not keep; each becomes '_'. */
  const InvalidChars: string := "<>:\"/\\|?*"

  /** The largest upload converted, in bytes (50 MiB). */
  const MaxUpload: nat := 50 * 1024 * 1024

  /** The name assumed for an upload that carries none. */
  const FallbackUpload: string := "document.txt"

  /** The name used when the session holds no default name. */
  const FallbackCsv: string := "converted.csv"

  // ---------------------------------------------------------------------------
  // Uploads
  // ---------------------------------------------------------------------------

  /** `document.file_name or "document.txt"`: a missing or empty name falls back. */
  function UploadName(fileName: Option<string>): (name: string)
    ensures name != []
    ensures fileName.Some? && fileName.value != [] ==> name == fileName.value
    ensures fileName.None? || fileName.value == [] ==> name == FallbackUpload
  {
    if fileName.None? || fileName.value == [] then FallbackUpload else fileName.value
  }

  /** The type test: the name, lower-cased, ends with ".txt". */
  predicate AcceptsName(name: string) {
    EndsWith(Lower(name), ".txt")
  }

  /** The size test: at most `MaxUpload` bytes. */
  predicate AcceptsSize(size: nat) {
    size <= MaxUpload
  }

  /** The offered name: every ".txt" replaced by ".csv", case-sensitively. */
  function DefaultName(name: string): string {
    Replace(name, ".txt", ".csv")
  }

  /** A name ending in one lower-case ".txt" is offered with ".csv" instead. */
  lemma DefaultOfPlainName(base: string)
    requires !Contains(base + ".tx", ".txt")
    ensures DefaultName(base + ".txt") == base + ".csv"
  {
    ReplaceIsSplitJoin(base + ".txt", ".txt", ".csv");
    assert ".txt"[..3] == ".tx";
    assert !Contains("", ".txt");
    JoinTwo(base, "", ".txt");
    assert base + ".txt" + "" == base + ".txt";
    SplitJoin([base, ""], ".txt", -1);
    JoinTwo(base, "", ".csv");
  }

  /** An upper-case extension passes the type test, but the offered name keeps
      it: "REPORT.TXT" is offered as "REPORT.TXT", not with ".csv". */
  lemma UpperExtensionKept(base: string)
    requires Lacks(base, 't')
    ensures AcceptsName(base + ".TXT")
    ensures DefaultName(base + ".TXT") == base + ".TXT"
    ensures !EndsWith(DefaultName(base + ".TXT"), ".csv")
  {
    var name := base + ".TXT";
    var n := |name|;
    assert name[n - 4..] == ".TXT";
    assert Lower(name)[n - 4..] == ".txt" by {
      assert Lower(name)[n - 4] == LowerChar('.');
      assert Lower(name)[n - 3] == LowerChar('T');
      assert Lower(name)[n - 2] == LowerChar('X');
      assert Lower(name)[n - 1] == LowerChar('T');
    }
    assert Lacks(name, 't') by {
      forall i | 0 <= i < n ensures name[i] != 't' {
        if i < |base| { assert name[i] == base[i]; }
      }
    }
    NoLowerTxt(name);
    assert name[n - 1] == 'T';
  }

  /** Without a lower-case 't' there is no ".txt" to replace. */
  lemma NoLowerTxt(name: string)
    requires Lacks(name, 't')
    ensures DefaultName(name) == name
  {
    forall j: nat ensures !OccursAt(name, ".txt", j) {
      if j + 4 <= |name| {
        assert name[j + 1] != 't';
        assert name[j..j + 4][1] == name[j + 1];
      }
    }
  }

  // ---------------------------------------------------------------------------
  // Renaming
  // ---------------------------------------------------------------------------

  /** `s.replace(c, '_')` for every `c` of `chars`, one after the other. */
  function ReplaceEach(s: string, chars: string): string
    decreases |chars|
  {
    if chars == [] then s else ReplaceEach(Replace(s, [chars[0]], "_"), chars[1..])
  }

  /** Replacing in turn is replacing every listed character at once. */
  lemma {:induction false} ReplaceEachSpec(s: string, chars: string)
    requires '_' !in chars
    ensures ReplaceEach(s, chars) == seq(|s|, i requires 0 <= i < |s| => if s[i] in chars then '_' else s[i])
    decreases |chars|
  {
    if chars != [] {
      var c := chars[0];
      var t := Replace(s, [c], "_");
      ReplaceChar(s, c, '_');
      ReplaceEachSpec(t, chars[1..]);
      assert forall x :: x in chars <==> x == c || x in chars[1..];
    }
  }

  /** Every invalid character replaced by '_'. */
  function Sanitize(s: string): (r: string)
    ensures |r| == |s|
  {
    seq(|s|, i requires 0 <= i < |s| => if s[i] in InvalidChars then '_' else s[i])
  }

  /** The sanitiser is the program's sequence of `replace` calls, one per
      invalid character. */
  lemma SanitizeIsSequential(s: string)
    ensures Sanitize(s) == ReplaceEach(s, InvalidChars)
  {
    ReplaceEachSpec(s, InvalidChars);
  }

  /** A name holding none of the invalid characters. */
  predicate Clean(name: string) {
    forall i :: 0 <= i < |name| ==> name[i] !in InvalidChars
  }

  /** The name a typed text becomes: stripped, refused when nothing is left,
      its invalid characters replaced, and ".csv" appended unless it already
      ends so in any case. */
  function CleanName(text: string): (r: Option<string>)
    ensures r.None? <==> Strip(text) == []
  {
    var s := Strip(text);
    if s == [] then None
    else
      var t := Sanitize(s);
      Some(if EndsWith(Lower(t), ".csv") then t else t + ".csv")
  }

  /** Lower-casing a name with a lower-case ".csv" appended ends in ".csv". */
  lemma LowerAppendCsv(t: string)
    ensures EndsWith(Lower(t + ".csv"), ".csv")
  {
    var u := t + ".csv";
    assert u[|u| - 4..] == ".csv";
    assert Lower(u)[|u| - 4..] == ".csv" by {
      forall i | |u| - 4 <= i < |u| ensures Lower(u)[i] == u[i] {
        assert !IsUpper(u[i]);
      }
    }
  }

  /** A cleaned name holds no invalid character, ends in ".csv" in some
      case, and is the sanitised text with ".csv" added exactly when it
      did not already end so. */
  lemma CleanNameSpec(text: string)
    requires Strip(text) != []
    ensures Clean(CleanName(text).value)
    ensures EndsWith(Lower(CleanName(text).value), ".csv")
    ensures var t := Sanitize(Strip(text));
            CleanName(text).value == (if EndsWith(Lower(t), ".csv") then t else t + ".csv")
  {
    var s := Strip(text);
    var t := Sanitize(s);
    LowerAppendCsv(t);
    assert Clean(t);
    assert Clean(".csv");
    assert Clean(t + ".csv") by {
      var u := t + ".csv";
      forall i | 0 <= i < |u| ensures u[i] !in InvalidChars {
        if i >= |t| {
          assert u[i] == ".csv"[i - |t|];
        }
      }
    }
  }

  /** A sanitised stripped text starts and ends as the text does, up to '_'. */
  lemma SanitizeStripped(s: string)
    requires Stripped(s)
    ensures Stripped(Sanitize(s))
  {
  }

  /** The sanitiser leaves a clean name alone. */
  lemma SanitizeClean(s: string)
    requires Clean(s)
    ensures Sanitize(s) == s
  {
  }

  /** Cleaning a cleaned name changes nothing. */
  lemma CleanNameIdempotent(text: string)
    requires CleanName(text).Some?
    ensures CleanName(CleanName(text).value) == CleanName(text)
  {
    var n := CleanName(text).value;
    var s := Strip(text);
    var t := Sanitize(s);
    CleanNameSpec(text);
    StripIsStripped(text);
    SanitizeStripped(s);
    assert Stripped(n) by {
      if n != t {
        assert n == t + ".csv";
        assert n[0] == t[0];
        assert n[|n| - 1] == 'v';
      }
    }
    StripStripped(n);
    SanitizeClean(n);
  }
}
