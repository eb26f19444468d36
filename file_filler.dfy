/**
 * `FileFillerService` (backend/app/services/file_filler_service.py): writing the
 * extracted values into the uploaded form.
 *
 * `fill_document` turns the results into the data map, picks the filler from the
 * lower-cased file name and names the output after the input. `_fill_pdf` sets the
 * value of every AcroForm widget whose name, without parentheses, is a key of the map.
 * `_fill_word` replaces each `{{key}}` in every paragraph and every table cell, one key
 * after the other in the map's order.
 *
 * Reading and writing files is not modelled: the documents come in as the objects
 * `PdfReader` and `Document` would build from the input, and what would be written
 * out is their state afterwards.
 */
module FileFiller {
  import opened Wrappers
  import opened Strings
  import opened Schemas
  import opened DataMaps

  // ---------------------------------------------------------------------------
  // Dispatch and output path
  // ---------------------------------------------------------------------------

  datatype Format = Pdf | Word

  /**
   * The ways `fill_document` fails: a file name that is neither PDF nor Word
   * (`ValueError("Unsupported file format")`), or an AcroForm without a `Fields` entry,
   * which `_fill_pdf` then tries to iterate (a `TypeError`).
   */
  datatype FillError = UnsupportedFormat | FieldsNotIterable

  /** The filler chosen for a file name: by its lower-cased ending, ".pdf" before ".docx". */
  function Dispatch(filename: string): Result<Format, FillError>
  {
    var name := Lower(filename);
    if EndsWith(name, ".pdf") then Ok(Pdf)
    else if EndsWith(name, ".docx") then Ok(Word)
    else Err(UnsupportedFormat)
  }

  lemma {:induction false} LowerIdempotent(s: string)
    ensures Lower(Lower(s)) == Lower(s)
  {
    var l := Lower(s);
    assert forall k :: 0 <= k < |s| ==> LowerChar(LowerChar(s[k])) == LowerChar(s[k]);
    assert Lower(l) == l;
  }

  lemma {:induction false} LowerSuffix(s: string, n: nat)
    requires n <= |s|
    ensures Lower(s)[|s| - n..] == Lower(s[|s| - n..])
  {
    var a := Lower(s)[|s| - n..];
    var b := Lower(s[|s| - n..]);
    assert forall k :: 0 <= k < n ==> a[k] == b[k];
  }

  /** The lower-cased last `n` characters of `s`, when it has that many. */
  predicate EndsWithLower(s: string, suffix: string)
  {
    |suffix| <= |s| && Lower(s[|s| - |suffix|..]) == suffix
  }

  /** `s.lower().endswith(suffix)` looks only at the last characters, lower-cased. */
  lemma LowerEndsWith(s: string, suffix: string)
    ensures EndsWith(Lower(s), suffix) <==> EndsWithLower(s, suffix)
  {
    if |suffix| <= |s| {
      LowerSuffix(s, |suffix|);
    }
  }

  /**
   * The choice does not depend on letter case: a name ending in ".pdf" in any case goes
   * to the PDF filler, any other name ending in ".docx" in any case to the Word filler,
   * and every other name is refused.
   */
  lemma DispatchCorrect(filename: string)
    ensures Dispatch(filename) == Ok(Pdf) <==> EndsWithLower(filename, ".pdf")
    ensures Dispatch(filename) == Ok(Word) <==> !EndsWithLower(filename, ".pdf") && EndsWithLower(filename, ".docx")
    ensures Dispatch(filename).Err? <==> !EndsWithLower(filename, ".pdf") && !EndsWithLower(filename, ".docx")
    ensures Dispatch(filename).Err? ==> Dispatch(filename).error == UnsupportedFormat
  {
    LowerEndsWith(filename, ".pdf");
    LowerEndsWith(filename, ".docx");
  }

  /** Lower-casing the name first changes nothing. */
  lemma DispatchIgnoresCase(filename: string)
    ensures Dispatch(Lower(filename)) == Dispatch(filename)
  {
    LowerIdempotent(filename);
  }

  lemma LowerExtensions()
    ensures Lower(".PDF") == ".pdf"
    ensures Lower(".Docx") == ".docx"
    ensures Lower("Docx") != ".pdf"
  {
    var l := Lower(".PDF");
    assert l[0] == '.' && l[1] == 'p' && l[2] == 'd' && l[3] == 'f';
    var w := Lower(".Docx");
    assert w[0] == '.' && w[1] == 'd' && w[2] == 'o' && w[3] == 'c' && w[4] == 'x';
    assert Lower("Docx")[0] == 'd';
  }

  /** An upper-case ".PDF" counts as PDF, whatever comes before. */
  lemma DispatchUpperCasePdf(stem: string)
    ensures Dispatch(stem + ".PDF") == Ok(Pdf)
  {
    var name := stem + ".PDF";
    assert name[|name| - 4..] == ".PDF";
    LowerExtensions();
    DispatchCorrect(name);
  }

  /** A mixed-case ".Docx" counts as Word, whatever comes before. */
  lemma DispatchMixedCaseDocx(stem: string)
    ensures Dispatch(stem + ".Docx") == Ok(Word)
  {
    var name := stem + ".Docx";
    assert name[|name| - 4..] == "Docx";
    assert name[|name| - 5..] == ".Docx";
    LowerExtensions();
    DispatchCorrect(name);
  }

  /** The position of the last `c` in `s`, or -1: Python's `s.rfind(c)`. */
  function LastIndexOf(s: string, c: char): (r: int)
    ensures -1 <= r < |s|
    ensures r >= 0 ==> s[r] == c
    ensures forall k :: r < k < |s| ==> s[k] != c
  {
    if |s| == 0 then -1
    else if s[|s| - 1] == c then |s| - 1
    else LastIndexOf(s[..|s| - 1], c)
  }

  /**
   * `os.path.splitext(p)[1]` with the POSIX separator: from the last dot of the last
   * path component, unless that component up to the dot is made of dots only.
   */
  function SplitExt(p: string): string
  {
    var sep := LastIndexOf(p, '/');
    var dot := LastIndexOf(p, '.');
    if dot > sep && exists k :: sep < k < dot && p[k] != '.' then p[dot..] else ""
  }

  /**
   * The extension is empty, or a dot followed by neither dots nor separators that ends
   * the path.
   */
  lemma SplitExtCorrect(p: string)
    ensures var e := SplitExt(p);
            e == "" || (e[0] == '.' && '.' !in e[1..] && '/' !in e && |e| <= |p| && p[|p| - |e|..] == e)
  {
    var e := SplitExt(p);
    if e != "" {
      var dot := LastIndexOf(p, '.');
      var sep := LastIndexOf(p, '/');
      assert e == p[dot..];
      assert forall t :: 0 <= t < |e| - 1 ==> e[1..][t] == p[dot + 1 + t];
      assert forall t :: 0 <= t < |e| ==> e[t] == p[dot + t];
    }
  }

  /** The extension of a name whose last component has a stem is the part from its last dot. */
  lemma SplitExtOf(stem: string, ext: string)
    requires |stem| > 0 && stem[|stem| - 1] != '.' && stem[|stem| - 1] != '/'
    requires |ext| > 0 && ext[0] == '.' && '.' !in ext[1..] && '/' !in ext
    ensures SplitExt(stem + ext) == ext
  {
    var p := stem + ext;
    assert forall t :: 0 <= t < |ext| - 1 ==> ext[1..][t] == p[|stem| + 1 + t];
    assert forall t :: 0 <= t < |ext| ==> p[|stem| + t] == ext[t];
    var dot := LastIndexOf(p, '.');
    assert dot == |stem|;
    assert LastIndexOf(p, '/') < |stem| - 1;
    assert p[|stem| - 1] != '.';
    assert p[dot..] == ext;
  }

  /** `input_path.replace(".", "_filled.")`. */
  function OutputPath(inputPath: string): string
  {
    ReplaceAll(inputPath, ".", "_filled.")
  }

  const FilledMark: string := "_filled"

  /** The number of times `c` occurs in `s`. */
  function CountChar(s: string, c: char): nat
  {
    if |s| == 0 then 0 else (if s[0] == c then 1 else 0) + CountChar(s[1..], c)
  }

  /** The first character is rewritten on its own: a dot becomes "_filled.", any other stays. */
  lemma OutputPathCons(c: char, s: string)
    ensures OutputPath([c] + s) == (if c == '.' then FilledMark + "." else [c]) + OutputPath(s)
  {
    var t := [c] + s;
    assert t[1..] == s;
    assert t[..1] == [c];
    assert FilledMark + "." == "_filled.";
    if c == '.' {
      assert "." <= t;
    } else {
      assert [c][0] != "."[0];
    }
  }

  /** Each dot of the input gains the seven characters of "_filled" in the output. */
  lemma {:induction false} OutputPathLength(inputPath: string)
    ensures |OutputPath(inputPath)| == |inputPath| + |FilledMark| * CountChar(inputPath, '.')
  {
    if |inputPath| > 0 {
      OutputPathLength(inputPath[1..]);
      OutputPathCons(inputPath[0], inputPath[1..]);
      assert inputPath == [inputPath[0]] + inputPath[1..];
    }
  }

  /** Every dot of `q` follows a "_filled"; in particular none stands in its first seven places. */
  predicate MarkedDots(q: string)
  {
    forall j :: 0 <= j < |q| && q[j] == '.' ==> j >= 7 && q[j - 7..j] == FilledMark
  }

  /** A character other than a dot in front keeps every dot marked. */
  lemma MarkedDotsCons(c: char, rest: string)
    requires c != '.' && MarkedDots(rest)
    ensures MarkedDots([c] + rest)
  {
    var q := [c] + rest;
    forall j | 0 <= j < |q| && q[j] == '.' ensures j >= 7 && q[j - 7..j] == FilledMark {
      assert q[j] == rest[j - 1];
      assert q[j - 7..j] == rest[j - 8..j - 1];
    }
  }

  /** A marked dot in front keeps every dot marked. */
  lemma MarkedDotsMark(rest: string)
    requires MarkedDots(rest)
    ensures MarkedDots(FilledMark + "." + rest)
  {
    var q := FilledMark + "." + rest;
    assert forall t :: 0 <= t < 7 ==> q[t] == FilledMark[t] && q[t] != '.';
    assert q[..7] == FilledMark;
    forall j | 0 <= j < |q| && q[j] == '.' ensures j >= 7 && q[j - 7..j] == FilledMark {
      if j >= 8 {
        assert q[j] == rest[j - 8];
        assert q[j - 7..j] == rest[j - 15..j - 8];
      }
    }
  }

  /** Every dot of the output follows a "_filled"; in particular none stands in its first seven places. */
  lemma {:induction false} DotsFollowMark(inputPath: string)
    ensures var q := OutputPath(inputPath);
            forall j :: 0 <= j < |q| && q[j] == '.' ==> j >= 7 && q[j - 7..j] == FilledMark
  {
    if |inputPath| > 0 {
      var c, s := inputPath[0], inputPath[1..];
      assert inputPath == [c] + s;
      DotsFollowMark(s);
      OutputPathCons(c, s);
      if c == '.' {
        MarkedDotsMark(OutputPath(s));
      } else {
        MarkedDotsCons(c, OutputPath(s));
      }
    }
  }

  /** Putting the dots back gives the input path: `output.replace("_filled.", ".") == input`. */
  lemma {:induction false} OutputPathRoundTrip(inputPath: string)
    ensures ReplaceAll(OutputPath(inputPath), FilledMark + ".", ".") == inputPath
  {
    if |inputPath| > 0 {
      var c, s := inputPath[0], inputPath[1..];
      assert inputPath == [c] + s;
      OutputPathRoundTrip(s);
      OutputPathCons(c, s);
      var q := OutputPath(inputPath);
      var rest := OutputPath(s);
      if c == '.' {
        assert q[8..] == rest;
      } else {
        DotsFollowMark(s);
        assert |rest| > 6 ==> rest[6] != '.';
        assert |q| >= 8 ==> q[7] == rest[6];
        assert "_filled."[7] == '.';
        assert !("_filled." <= q);
        assert q[1..] == rest;
      }
    }
  }

  /** Each character is handled on its own: a path is rewritten piece by piece. */
  lemma {:induction false} OutputPathConcat(a: string, b: string)
    ensures OutputPath(a + b) == OutputPath(a) + OutputPath(b)
  {
    if |a| > 0 {
      OutputPathConcat(a[1..], b);
      assert a + b == [a[0]] + (a[1..] + b);
      assert a == [a[0]] + a[1..];
      OutputPathCons(a[0], a[1..] + b);
      OutputPathCons(a[0], a[1..]);
    } else {
      assert a + b == b;
    }
  }

  /** A path without dots is left as it is. */
  lemma {:induction false} OutputPathWithoutDots(s: string)
    requires '.' !in s
    ensures OutputPath(s) == s
  {
    if |s| > 0 {
      OutputPathWithoutDots(s[1..]);
      OutputPathCons(s[0], s[1..]);
      assert s == [s[0]] + s[1..];
    }
  }

  /** Every dot is rewritten, those of the directories as well as the extension's. */
  lemma OutputPathEveryDot(dir: string, stem: string, ext: string)
    requires '.' !in dir && '.' !in stem && '.' !in ext
    ensures OutputPath(dir + "." + stem + "." + ext) == dir + "_filled." + stem + "_filled." + ext
  {
    OutputPathConcat(dir + "." + stem + ".", ext);
    OutputPathConcat(dir + "." + stem, ".");
    OutputPathConcat(dir + ".", stem);
    OutputPathConcat(dir, ".");
    OutputPathWithoutDots(dir);
    OutputPathWithoutDots(stem);
    OutputPathWithoutDots(ext);
    OutputPathCons('.', "");
  }

  /**
   * The temporary file carries the upload's extension, so the output path ends in
   * "_filled" and that extension: `tmp.pdf` becomes `tmp_filled.pdf`.
   */
  lemma OutputPathKeepsExtension(tempName: string, ext: string)
    requires |ext| > 0 && ext[0] == '.' && '.' !in ext[1..]
    ensures OutputPath(tempName + ext) == OutputPath(tempName) + FilledMark + ext
  {
    assert ext == ['.'] + ext[1..];
    OutputPathConcat(tempName, ext);
    OutputPathCons('.', ext[1..]);
    OutputPathWithoutDots(ext[1..]);
  }

  /**
   * An upload named just ".pdf" goes to the PDF filler, yet its temporary copy has no
   * suffix: the last component up to its dot is empty. With a dot-free temporary name
   * the output path is then the input path itself.
   */
  lemma DotOnlyNameKeepsPath(name: string, tempName: string)
    requires name == ".pdf"
    requires '.' !in tempName
    ensures Dispatch(name) == Ok(Pdf)
    ensures SplitExt(Lower(name)) == ""
    ensures OutputPath(tempName + SplitExt(Lower(name))) == tempName + SplitExt(Lower(name))
  {
    LowerExtensions();
    DispatchCorrect(name);
    var l := Lower(name);
    assert LastIndexOf(l[..3], '.') == 0;
    assert LastIndexOf(l, '.') == 0;
    assert tempName + "" == tempName;
    OutputPathWithoutDots(tempName);
  }

  lemma OutputPathExample()
    ensures OutputPath("/tmp/a.b/t.pdf") == "/tmp/a_filled.b/t_filled.pdf"
  {
    assert "/tmp/a.b/t.pdf" == "/tmp/a" + "." + "b/t" + "." + "pdf";
    assert "/tmp/a_filled.b/t_filled.pdf" == "/tmp/a" + "_filled." + "b/t" + "_filled." + "pdf";
    OutputPathEveryDot("/tmp/a", "b/t", "pdf");
  }

  // ---------------------------------------------------------------------------
  // PDF forms
  // ---------------------------------------------------------------------------

  /** An AcroForm widget: its name `T` and value `V`, either of which may be absent. */
  datatype Widget = Widget(name: Option<string>, value: Option<string>)

  /** `field_name.replace("(", "").replace(")", "")`. */
  function NormaliseName(name: string): string
  {
    ReplaceAll(ReplaceAll(name, "(", ""), ")", "")
  }

  /** The key looked up for a widget: its name without parentheses, when it has a non-empty one. */
  function WidgetKey(w: Widget): Option<string>
  {
    if w.name.Some? && |w.name.value| > 0 then Some(NormaliseName(w.name.value)) else None
  }

  /** One pass of the loop in `_fill_pdf`. */
  function FillWidget(w: Widget, data: DataMap): Widget
  {
    match WidgetKey(w)
    case None => w
    case Some(key) =>
      match Get(data, key)
      case Some(v) => w.(value := Some(v))
      case None => w
  }

  /** The name loses every '(' and ')' and keeps its other characters in order. */
  lemma NormaliseNameCorrect(name: string)
    ensures NormaliseName(name) == RemoveChar(RemoveChar(name, '('), ')')
    ensures '(' !in NormaliseName(name) && ')' !in NormaliseName(name)
  {
    ReplaceCharByNothing(name, '(');
    ReplaceCharByNothing(RemoveChar(name, '('), ')');
    RemoveCharKeepsAbsence(RemoveChar(name, '('), ')', '(');
  }

  lemma {:induction false} RemoveCharKeepsAbsence(s: string, c: char, d: char)
    requires d !in s
    ensures d !in RemoveChar(s, c)
  {
    if |s| > 0 {
      RemoveCharKeepsAbsence(s[1..], c, d);
    }
  }

  /**
   * A widget takes the mapped string exactly when it has a non-empty name that is a key
   * of the map once its parentheses are deleted; otherwise it is left as it was.
   */
  lemma FillWidgetCorrect(w: Widget, data: DataMap)
    ensures FillWidget(w, data).name == w.name
    ensures w.name.Some? && |w.name.value| > 0 && HasKey(data, RemoveChar(RemoveChar(w.name.value, '('), ')')) ==>
              FillWidget(w, data).value == Get(data, RemoveChar(RemoveChar(w.name.value, '('), ')'))
    ensures !(w.name.Some? && |w.name.value| > 0 && HasKey(data, RemoveChar(RemoveChar(w.name.value, '('), ')'))) ==>
              FillWidget(w, data) == w
  {
    if w.name.Some? {
      NormaliseNameCorrect(w.name.value);
    }
  }

  /** `after` is `before` with each widget filled from `data`. */
  ghost predicate WidgetsFilled(after: seq<Widget>, before: seq<Widget>, data: DataMap)
  {
    |after| == |before| && forall k :: 0 <= k < |before| ==> after[k] == FillWidget(before[k], data)
  }

  /** A PDF read by `PdfReader`, as far as `_fill_pdf` looks at it. */
  class PdfDocument {
    /** `Root.AcroForm` is present and not empty (an empty dictionary counts as false). */
    const hasAcroForm: bool
    /** The AcroForm has a `Fields` entry. */
    const hasFields: bool
    /** The widgets listed in `Fields`. */
    const fields: array<Widget>

    constructor(hasAcroForm: bool, hasFields: bool, widgets: seq<Widget>)
      ensures this.hasAcroForm == hasAcroForm && this.hasFields == hasFields
      ensures fresh(fields) && fields[..] == widgets
    {
      this.hasAcroForm := hasAcroForm;
      this.hasFields := hasFields;
      fields := new Widget[|widgets|](i requires 0 <= i < |widgets| => widgets[i]);
    }

    /**
     * `_fill_pdf` on this document: every widget is filled when there is an AcroForm;
     * without one nothing changes, and an AcroForm without `Fields` fails before any
     * change.
     */
    method Fill(data: DataMap) returns (r: Result<(), FillError>)
      modifies fields
      ensures r.Err? <==> hasAcroForm && !hasFields
      ensures r.Err? ==> r.error == FieldsNotIterable
      ensures hasAcroForm && hasFields ==> WidgetsFilled(fields[..], old(fields[..]), data)
      ensures !(hasAcroForm && hasFields) ==> fields[..] == old(fields[..])
    {
      if !hasAcroForm {
        return Ok(());
      }
      if !hasFields {
        return Err(FieldsNotIterable);
      }
      for i := 0 to fields.Length
        invariant forall k :: 0 <= k < i ==> fields[k] == FillWidget(old(fields[k]), data)
        invariant forall k :: i <= k < fields.Length ==> fields[k] == old(fields[k])
      {
        var field := fields[i];
        var fieldName := field.name;
        if fieldName.Some? && |fieldName.value| > 0 {
          var key := ReplaceAll(ReplaceAll(fieldName.value, "(", ""), ")", "");
          if HasKey(data, key) {
            fields[i] := field.(value := Get(data, key));
          }
        }
      }
      return Ok(());
    }
  }

  // ---------------------------------------------------------------------------
  // Word documents
  // ---------------------------------------------------------------------------

  /** `f"{{{{{key}}}}}"`, that is "{{" + key + "}}". */
  function Placeholder(key: string): string
  {
    "{{" + key + "}}"
  }

  /** One pass of the inner loop over the map: the guarded `text.replace(placeholder, value)`. */
  function ApplyOne(text: string, key: string, value: string): string
  {
    var placeholder := Placeholder(key);
    if Contains(text, placeholder) then ReplaceAll(text, placeholder, value) else text
  }

  /** The passes for all the map's entries, in order, each on the text the last one left. */
  function FillText(text: string, data: DataMap): string
    decreases |data|
  {
    if |data| == 0 then text else FillText(ApplyOne(text, data[0].0, data[0].1), data[1..])
  }

  /** The `in` test before each replacement changes nothing: the pass is a plain replace-all. */
  lemma ApplyOneIsReplaceAll(text: string, key: string, value: string)
    ensures ApplyOne(text, key, value) == ReplaceAll(text, Placeholder(key), value)
    ensures ApplyOne(text, key, value) == Join(Split(text, Placeholder(key)), value)
  {
    if !Contains(text, Placeholder(key)) {
      ReplaceAllWithoutOccurrence(text, Placeholder(key), value);
    }
    ReplaceAllIsJoinOfSplit(text, Placeholder(key), value);
  }

  /** The last entry's pass runs on the text the earlier entries left. */
  lemma {:induction false} FillTextAppend(text: string, data: DataMap, key: string, value: string)
    ensures FillText(text, data + [(key, value)]) == ReplaceAll(FillText(text, data), Placeholder(key), value)
    decreases |data|
  {
    if |data| == 0 {
      ApplyOneIsReplaceAll(text, key, value);
      assert ([] + [(key, value)])[1..] == [];
    } else {
      assert (data + [(key, value)])[1..] == data[1..] + [(key, value)];
      FillTextAppend(ApplyOne(text, data[0].0, data[0].1), data[1..], key, value);
    }
  }

  /** Text holding no placeholder of any key in the map is left as it is. */
  lemma {:induction false} FillTextUntouched(text: string, data: DataMap)
    requires forall k :: 0 <= k < |data| ==> !Contains(text, Placeholder(data[k].0))
    ensures FillText(text, data) == text
    decreases |data|
  {
    if |data| > 0 {
      assert !Contains(text, Placeholder(data[0].0));
      FillTextUntouched(text, data[1..]);
    }
  }

  /** A placeholder for a key without braces holds no other key's placeholder. */
  lemma PlaceholderInPlaceholder(x: string, k: string)
    requires '{' !in x && '}' !in x
    requires Contains(Placeholder(x), Placeholder(k))
    ensures k == x
  {
    var p := Placeholder(x);
    var q := Placeholder(k);
    ContainsAt(p, q);
    var i :| OccursAt(p, q, i);
    PlaceholderChars(x);
    PlaceholderChars(k);
    // A later start would put the second '{' inside `x`, a shorter key its first '}'.
    assert forall j :: 0 <= j < |q| ==> p[i + j] == q[j];
    assert i == 0 && |k| == |x|;
    assert x == p[2..|x| + 2] && k == q[2..|k| + 2];
  }

  lemma PlaceholderChars(key: string)
    ensures var p := Placeholder(key);
            && |p| == |key| + 4
            && p[0] == '{' && p[1] == '{' && p[|key| + 2] == '}' && p[|key| + 3] == '}'
            && forall j :: 0 <= j < |key| ==> p[j + 2] == key[j]
  {
  }

  /** A placeholder for a key missing from the map stays verbatim. */
  lemma AbsentPlaceholderKept(x: string, data: DataMap)
    requires '{' !in x && '}' !in x
    requires !HasKey(data, x)
    ensures FillText(Placeholder(x), data) == Placeholder(x)
  {
    forall k | 0 <= k < |data| ensures !Contains(Placeholder(x), Placeholder(data[k].0)) {
      if Contains(Placeholder(x), Placeholder(data[k].0)) {
        PlaceholderInPlaceholder(x, data[k].0);
      }
    }
    FillTextUntouched(Placeholder(x), data);
  }

  /** A key without braces, as every key whose placeholder counts as closed must be. */
  predicate BraceFree(key: string)
  {
    '{' !in key && '}' !in key
  }

  /** In a placeholder of a brace-free key, the first '}' after the opening braces ends the key. */
  lemma ClosingBraces(s: string, key: string, i: nat)
    requires BraceFree(key)
    requires OccursAt(s, Placeholder(key), i)
    ensures s[i + |key| + 2] == '}'
    ensures forall t :: i + 2 <= t < i + 2 + |key| ==> s[t] != '}'
  {
    PlaceholderChars(key);
    var p := Placeholder(key);
    assert forall t :: 0 <= t < |p| ==> s[i + t] == p[t];
    forall t | i + 2 <= t < i + 2 + |key| ensures s[t] != '}' {
      assert s[t] == key[t - i - 2];
    }
  }

  /**
   * Two placeholders of brace-free keys cannot overlap: one that starts inside another
   * starts where it does and has the same key.
   */
  lemma PlaceholdersApart(s: string, x: string, k: string, i: nat, j: nat)
    requires BraceFree(x) && BraceFree(k)
    requires i <= j < i + |Placeholder(x)|
    ensures OccursAt(s, Placeholder(x), i) && OccursAt(s, Placeholder(k), j) ==> j == i && k == x
  {
    var p, q := Placeholder(x), Placeholder(k);
    if OccursAt(s, p, i) && OccursAt(s, q, j) {
      PlaceholderChars(x);
      PlaceholderChars(k);
      assert forall t :: 0 <= t < |p| ==> s[i + t] == p[t];
      assert forall t :: 0 <= t < |q| ==> s[j + t] == q[t];
      assert s[j] == '{' && s[j + 1] == '{';
      assert j == i;
      // The first '}' after the opening braces ends both keys.
      ClosingBraces(s, x, i);
      ClosingBraces(s, k, j);
      assert |k| == |x|;
      assert x == s[i + 2..i + 2 + |x|] && k == s[j + 2..j + 2 + |k|];
    }
  }

  /**
   * One pass for a brace-free key other than `x` leaves a `{{x}}` of a brace-free `x`
   * where it stands and replaces the text on either side of it on its own: no occurrence
   * of the key's placeholder overlaps it.
   */
  lemma ApplyOneKeepsPlaceholder(a: string, b: string, key: string, value: string, x: string)
    requires BraceFree(x) && BraceFree(key) && key != x
    ensures ApplyOne(a + Placeholder(x) + b, key, value)
            == ApplyOne(a, key, value) + Placeholder(x) + ApplyOne(b, key, value)
  {
    var p, q := Placeholder(x), Placeholder(key);
    var text := a + p + b;
    var i := |a|;
    assert text[i..i + |p|] == p && text[..i] == a && text[i + |p|..] == b;
    forall j | 0 <= j < i + |p| && i < j + |q| ensures !OccursAt(text, q, j) {
      if j >= i {
        PlaceholdersApart(text, x, key, i, j);
      } else {
        PlaceholdersApart(text, key, x, j, i);
      }
    }
    ApplyOneIsReplaceAll(text, key, value);
    ApplyOneIsReplaceAll(a, key, value);
    ApplyOneIsReplaceAll(b, key, value);
    ReplaceAllKeeps(text, q, value, p, i);
  }

  /**
   * A `{{x}}` of a brace-free `x` that is in no entry of a map of brace-free keys comes
   * through all the passes verbatim, and the text on either side is filled on its own.
   */
  lemma {:induction false} FillTextKeepsPlaceholder(a: string, b: string, data: DataMap, x: string)
    requires BraceFree(x)
    requires forall k :: 0 <= k < |data| ==> BraceFree(data[k].0) && data[k].0 != x
    ensures FillText(a + Placeholder(x) + b, data) == FillText(a, data) + Placeholder(x) + FillText(b, data)
    decreases |data|
  {
    if |data| > 0 {
      var (key, value) := data[0];
      ApplyOneKeepsPlaceholder(a, b, key, value, x);
      FillTextKeepsPlaceholder(ApplyOne(a, key, value), ApplyOne(b, key, value), data[1..], x);
    }
  }

  /**
   * An unmatched placeholder is left verbatim: when all keys are brace-free, a `{{x}}`
   * anywhere in a paragraph or cell, for an `x` that is not a key of the map, stays where
   * it is, and the text before and after it is filled as if it stood alone. Applied to
   * each copy in turn, every copy stays.
   */
  lemma AbsentPlaceholderInText(a: string, b: string, data: DataMap, x: string)
    requires BraceFree(x)
    requires forall k :: 0 <= k < |data| ==> BraceFree(data[k].0)
    requires !HasKey(data, x)
    ensures FillText(a + Placeholder(x) + b, data) == FillText(a, data) + Placeholder(x) + FillText(b, data)
    ensures Contains(FillText(a + Placeholder(x) + b, data), Placeholder(x))
  {
    FillTextKeepsPlaceholder(a, b, data, x);
    ContainsMiddle(FillText(a, data), Placeholder(x), FillText(b, data));
  }

  /**
   * Why the keys must be brace-free: the key "x}}{{y" swallows the absent `{{x}}` of
   * "{{x}}{{y}}", which the source turns into the value alone.
   */
  lemma BracedKeySwallowsPlaceholder(v: string)
    ensures !HasKey([("x}}{{y", v)], "x")
    ensures FillText("{{x}}{{y}}", [("x}}{{y", v)]) == v
  {
    var t := "{{x}}{{y}}";
    var k := "x}}{{y";
    assert Placeholder(k) == t;
    assert [("x}}{{y", v)][1..] == [];
    ApplyOneIsReplaceAll(t, k, v);
    assert t[|t|..] == [];
    assert ReplaceAll(t, t, v) == v + ReplaceAll([], t, v);
    assert k != "x";
  }

  /** The inner loop of `_fill_word` on one paragraph's or one cell's text. */
  method ApplyPlaceholders(text: string, data: DataMap) returns (r: string)
    ensures r == FillText(text, data)
  {
    r := text;
    for j := 0 to |data|
      invariant FillText(r, data[j..]) == FillText(text, data)
    {
      var (key, value) := data[j];
      var placeholder := "{{" + key + "}}";
      assert data[j..][1..] == data[j + 1..];
      if Contains(r, placeholder) {
        r := ReplaceAll(r, placeholder, value);
      }
    }
    assert data[|data|..] == [];
  }

  /** `after` is `before` with every text filled from `data`. */
  ghost predicate TextsFilled(after: seq<string>, before: seq<string>, data: DataMap)
  {
    |after| == |before| && forall k :: 0 <= k < |before| ==> after[k] == FillText(before[k], data)
  }

  /** The same for every row of a table. */
  ghost predicate RowsFilled(after: seq<seq<string>>, before: seq<seq<string>>, data: DataMap)
  {
    |after| == |before| && forall k :: 0 <= k < |before| ==> TextsFilled(after[k], before[k], data)
  }

  /** The same for every table. */
  ghost predicate TablesFilled(after: seq<seq<seq<string>>>, before: seq<seq<seq<string>>>, data: DataMap)
  {
    |after| == |before| && forall k :: 0 <= k < |before| ==> RowsFilled(after[k], before[k], data)
  }

  /** The cells of one row, each filled in turn. */
  method FillCells(cells: seq<string>, data: DataMap) returns (r: seq<string>)
    ensures TextsFilled(r, cells, data)
  {
    r := cells;
    for c := 0 to |cells|
      invariant |r| == |cells|
      invariant forall k :: 0 <= k < c ==> r[k] == FillText(cells[k], data)
      invariant forall k :: c <= k < |cells| ==> r[k] == cells[k]
    {
      var filled := ApplyPlaceholders(r[c], data);
      r := r[c := filled];
    }
  }

  /** The rows of one table, each filled in turn. */
  method FillRows(rows: seq<seq<string>>, data: DataMap) returns (r: seq<seq<string>>)
    ensures RowsFilled(r, rows, data)
  {
    r := rows;
    for w := 0 to |rows|
      invariant |r| == |rows|
      invariant forall k :: 0 <= k < w ==> TextsFilled(r[k], rows[k], data)
      invariant forall k :: w <= k < |rows| ==> r[k] == rows[k]
    {
      var filled := FillCells(r[w], data);
      r := r[w := filled];
    }
  }

  /**
   * A Word document opened by `Document`, as far as `_fill_word` looks at it: the text
   * of each paragraph, and of each cell of each row of each table.
   */
  class WordDocument {
    var paragraphs: seq<string>
    var tables: seq<seq<seq<string>>>

    constructor(paragraphs: seq<string>, tables: seq<seq<seq<string>>>)
      ensures this.paragraphs == paragraphs && this.tables == tables
    {
      this.paragraphs := paragraphs;
      this.tables := tables;
    }

    /** `_fill_word` on this document: every paragraph, then every cell, is filled. */
    method Fill(data: DataMap)
      modifies this
      ensures TextsFilled(paragraphs, old(paragraphs), data)
      ensures TablesFilled(tables, old(tables), data)
    {
      for p := 0 to |paragraphs|
        invariant |paragraphs| == |old(paragraphs)|
        invariant forall k :: 0 <= k < p ==> paragraphs[k] == FillText(old(paragraphs)[k], data)
        invariant forall k :: p <= k < |paragraphs| ==> paragraphs[k] == old(paragraphs)[k]
        invariant tables == old(tables)
      {
        var filled := ApplyPlaceholders(paragraphs[p], data);
        paragraphs := paragraphs[p := filled];
      }
      for t := 0 to |tables|
        invariant |tables| == |old(tables)|
        invariant forall k :: 0 <= k < t ==> RowsFilled(tables[k], old(tables)[k], data)
        invariant forall k :: t <= k < |tables| ==> tables[k] == old(tables)[k]
        invariant TextsFilled(paragraphs, old(paragraphs), data)
      {
        var filled := FillRows(tables[t], data);
        tables := tables[t := filled];
      }
    }
  }

  // ---------------------------------------------------------------------------
  // fill_document
  // ---------------------------------------------------------------------------

  /**
   * `fill_document`: `filename` is the uploaded file's name, `tempName` the name the
   * system gives the temporary copy before its suffix (the extension of the lower-cased
   * name), and `pdf` and `word` the document as each filler would open it. Only
   * the filler the name selects changes anything; the path of the filled copy is
   * returned, or the error that stopped the filler.
   */
  method FillDocument(filename: string, tempName: string, data: seq<FieldResult>,
                      pdf: PdfDocument, word: WordDocument)
    returns (r: Result<string, FillError>)
    modifies pdf.fields, word
    ensures Dispatch(filename).Err? ==>
              r == Err(UnsupportedFormat) && pdf.fields[..] == old(pdf.fields[..]) && unchanged(word)
    ensures Dispatch(filename) == Ok(Pdf) ==>
              && unchanged(word)
              && (r.Err? <==> pdf.hasAcroForm && !pdf.hasFields)
              && (r.Err? ==> r.error == FieldsNotIterable && pdf.fields[..] == old(pdf.fields[..]))
              && (r.Ok? ==> r.value == OutputPath(tempName + SplitExt(Lower(filename))))
              && (pdf.hasAcroForm && pdf.hasFields ==> WidgetsFilled(pdf.fields[..], old(pdf.fields[..]), BuildDataMap(data)))
              && (!pdf.hasAcroForm ==> pdf.fields[..] == old(pdf.fields[..]))
    ensures Dispatch(filename) == Ok(Word) ==>
              && r == Ok(OutputPath(tempName + SplitExt(Lower(filename))))
              && pdf.fields[..] == old(pdf.fields[..])
              && TextsFilled(word.paragraphs, old(word.paragraphs), BuildDataMap(data))
              && TablesFilled(word.tables, old(word.tables), BuildDataMap(data))
  {
    var dataMap := BuildDataMap(data);
    var name := Lower(filename);
    var inputPath := tempName + SplitExt(name);
    var outputPath := ReplaceAll(inputPath, ".", "_filled.");
    if EndsWith(name, ".pdf") {
      var filled := pdf.Fill(dataMap);
      if filled.Err? {
        return Err(filled.error);
      }
    } else if EndsWith(name, ".docx") {
      word.Fill(dataMap);
    } else {
      return Err(UnsupportedFormat);
    }
    return Ok(outputPath);
  }
}
