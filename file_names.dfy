/**
 * The extension filter `allowed_file` of the upload endpoint, and the
 * case-sensitive `endswith` dispatch that later picks the reader for the
 * saved file.  Names are strings of characters; `str.lower()` is modelled
 * as an ASCII fold (see LowerChar).
 */
module FileNames {
  import opened Wrappers

  /** ALLOWED_EXTENSIONS, compared against the lower-cased extension. */
  const AllowedExtensions: set<string> := {"csv", "xlsx"}

  /** `str.lower()` on one character.  Only the ASCII capitals matter for
      membership in AllowedExtensions. */
  function LowerChar(c: char): char
  {
    if 'A' <= c <= 'Z' then (c as int - 'A' as int + 'a' as int) as char else c
  }

  function Lower(s: string): string
  {
    if s == [] then [] else [LowerChar(s[0])] + Lower(s[1..])
  }

  /** `s[i]` is a '.' with no '.' after it. */
  predicate IsLastDot(s: string, i: int)
  {
    0 <= i < |s| && s[i] == '.' && '.' !in s[i + 1..]
  }

  /** Position of the last '.' in `s`: the split point of `s.rsplit('.', 1)`. */
  function LastDot(s: string): (r: Option<nat>)
    ensures r.None? <==> '.' !in s
    ensures r.Some? ==> IsLastDot(s, r.value)
  {
    if s == [] then None
    else if s[|s| - 1] == '.' then Some(|s| - 1)
    else
      var init, last := s[..|s| - 1], s[|s| - 1];
      var r := LastDot(init);
      assert s == init + [last];
      assert '.' in s <==> '.' in init;
      assert r.Some? ==> s[r.value + 1..] == init[r.value + 1..] + [last];
      r
  }

  /** `s.rsplit('.', 1)[1]`: the text after the last '.'.  The source only
      evaluates it after checking that `s` contains a '.'. */
  function AfterLastDot(s: string): string
    requires '.' in s
  {
    s[LastDot(s).value + 1..]
  }

  /** An extension allowed_file accepts, compared after lower-casing. */
  predicate AllowedExtension(ext: string)
  {
    Lower(ext) in AllowedExtensions
  }

  /** allowed_file(filename) */
  predicate AllowedFile(filename: string)
  {
    '.' in filename && AllowedExtension(AfterLastDot(filename))
  }

  /** `s.endswith(suffix)`, case-sensitive. */
  predicate EndsWith(s: string, suffix: string)
  {
    |suffix| <= |s| && s[|s| - |suffix|..] == suffix
  }

  /** The reader the handler runs on the stored file name. */
  datatype Reader = ReadCsv | ReadExcel

  /** The `if filename.endswith('.csv') ... elif filename.endswith('.xlsx')`
      chain; None means neither branch runs and `df` is never bound. */
  function Dispatch(name: string): Option<Reader>
  {
    if EndsWith(name, ".csv") then Some(ReadCsv)
    else if EndsWith(name, ".xlsx") then Some(ReadExcel)
    else None
  }

  /** Any '.' with no '.' after it is the one `rsplit` splits on. */
  lemma LastDotUnique(s: string, i: nat)
    requires IsLastDot(s, i)
    ensures LastDot(s) == Some(i)
  {
    assert s[i] in s;
  }

  /** allowed_file accepts exactly the names with a '.' whose suffix after
      the LAST '.' is "csv" or "xlsx" ignoring case. */
  lemma AllowedFileIff(filename: string)
    ensures AllowedFile(filename) <==>
      exists i :: IsLastDot(filename, i) && AllowedExtension(filename[i + 1..])
  {
    if AllowedFile(filename) {
      var i := LastDot(filename).value;
      assert IsLastDot(filename, i);
    }
    if exists i :: IsLastDot(filename, i) && AllowedExtension(filename[i + 1..]) {
      var i :| IsLastDot(filename, i) && AllowedExtension(filename[i + 1..]);
      LastDotUnique(filename, i);
      assert filename[i] in filename;
    }
  }

  /** A name without a '.' is always refused. */
  lemma NoDotRejected(filename: string)
    requires '.' !in filename
    ensures !AllowedFile(filename)
  {
  }

  /** Only the last '.' matters, and case is ignored. */
  lemma AllowedFileExamples()
    ensures AllowedFile("a.txt.csv")
    ensures AllowedFile("A.XLSX")
    ensures !AllowedFile("a.csv.txt")
    ensures !AllowedFile("csv")
  {
    LastDotUnique("a.txt.csv", 5);
    LastDotUnique("A.XLSX", 1);
    LastDotUnique("a.csv.txt", 5);
    assert Lower("csv") == "csv";
    assert Lower("XLSX") == "xlsx";
    assert Lower("txt") == "txt";
  }

  /** For a name with a '.', `endswith('.' + ext)` with a dot-free `ext`
      holds exactly when `ext` is the text after the last '.'. */
  lemma EndsWithExtension(name: string, ext: string)
    requires '.' in name && '.' !in ext
    ensures EndsWith(name, "." + ext) <==> AfterLastDot(name) == ext
  {
    var n := |name|;
    if EndsWith(name, "." + ext) {
      var i := n - |ext| - 1;
      assert name[i] == ("." + ext)[0];
      assert name[i + 1..] == name[i..][1..] == ext;
      LastDotUnique(name, i);
    }
    if AfterLastDot(name) == ext {
      var j := LastDot(name).value;
      assert name[j..] == [name[j]] + name[j + 1..];
    }
  }

  /** For a name with a '.', the case-sensitive dispatch picks a reader
      exactly when the raw extension is "csv" or "xlsx". */
  lemma DispatchMatchesExtension(name: string)
    requires '.' in name
    ensures Dispatch(name) == Some(ReadCsv) <==> AfterLastDot(name) == "csv"
    ensures Dispatch(name) == Some(ReadExcel) <==> AfterLastDot(name) == "xlsx"
    ensures Dispatch(name).None? <==> AfterLastDot(name) !in AllowedExtensions
  {
    EndsWithExtension(name, "csv");
    EndsWithExtension(name, "xlsx");
  }

  /** A name that passes allowed_file but whose extension is not written in
      lower case reaches no reader. */
  lemma UncasedExtensionHasNoReader(name: string)
    requires AllowedFile(name)
    ensures Dispatch(name).None? <==> AfterLastDot(name) != Lower(AfterLastDot(name))
  {
    DispatchMatchesExtension(name);
  }

  /** "X.CSV" is accepted by allowed_file, yet neither reader runs for it. */
  lemma UpperCaseCsvHasNoReader()
    ensures AllowedFile("X.CSV") && Dispatch("X.CSV").None?
  {
    LastDotUnique("X.CSV", 1);
    assert Lower("CSV") == "csv";
    DispatchMatchesExtension("X.CSV");
  }
}
