/** Which names and file names survive in a Content-Disposition line: the serializer quotes them, but the
    parser splits the line before it looks at quotes. */
module DispositionExact {
  import opened Text
  import opened MultipartSpec
  import opened MultipartHeaders
  import UrlCodec
  import QueryExact

  // ---------------------------------------------------------------- pieces

  lemma TrimChars(s: string)
    ensures forall c :: c in Trim(s) ==> c in s
  {
    TrimLeftChars(s);
    TrimRightShort(TrimLeft(s));
  }

  lemma {:induction false} TrimLeftChars(s: string)
    ensures forall c :: c in TrimLeft(s) ==> c in s
  {
    if s != "" && IsBlank(s[0]) { TrimLeftChars(s[1..]); }
  }

  /** A reported piece holds characters of the text, but no separator. */
  lemma {:induction false} PieceFree(s: string, d: char, j: nat)
    requires j < |SplitOn(s, d)|
    ensures d !in SplitOn(s, d)[j] && forall c :: c in SplitOn(s, d)[j] ==> c in s
    decreases |s|
  {
    hide SplitOn, Trim;
    if d in s {
      var x, rest := QueryExact.FirstCut(s, d);
      SplitCons(x, d, rest);
      TrimChars(x);
      if j >= |Kept(x)| { PieceFree(rest, d, j - |Kept(x)|); }
    } else {
      SplitSingle(s, d);
      TrimChars(s);
    }
  }

  /** Two pieces and the separator between them fit into the text. */
  lemma {:induction false} TwoPieces(s: string, d: char, i: nat, j: nat)
    requires i < j < |SplitOn(s, d)|
    ensures |SplitOn(s, d)[i]| + 1 + |SplitOn(s, d)[j]| <= |s|
    decreases |s|
  {
    hide SplitOn, Trim, NoOuterBlanks;
    if d in s {
      var x, rest := QueryExact.FirstCut(s, d);
      SplitCons(x, d, rest);
      QueryExact.TrimShort(x);
      var n := |Kept(x)|;
      if i >= n {
        TwoPieces(rest, d, i - n, j - n);
      } else {
        QueryExact.PieceShort(rest, d, j - n);
      }
    } else {
      SplitSingle(s, d);
    }
  }

  /** What one piece gives: no `=`, and no more characters than the piece has. */
  lemma PairFree(kv: string)
    ensures var (k, v) := UrlCodec.PairOf(kv);
      '=' !in v && (forall c :: c in v ==> c in kv) && (v != "" ==> |k| + 1 + |v| <= |kv|)
  {
    hide SplitOn;
    var parts := SplitOn(kv, '=');
    if |parts| >= 2 {
      PieceFree(kv, '=', |parts| - 1);
      TwoPieces(kv, '=', 0, |parts| - 1);
    }
  }

  lemma UnquotedFree(s: string)
    ensures |TrimQuotes(s)| <= |s| && forall c :: c in TrimQuotes(s) ==> c in s
  {
  }

  lemma {:induction false} LookupFrom(ps: UrlCodec.Params, key: string) returns (i: nat)
    requires Lookup(ps, key).Some?
    ensures i < |ps| && ps[i] == (key, Lookup(ps, key).value)
  {
    if ps[0].0 == key {
      i := 0;
    } else {
      i := LookupFrom(ps[1..], key);
      i := i + 1;
    }
  }

  /** A value found comes from one of the pieces. */
  lemma FoundIn(t: string, key: string) returns (j: nat)
    requires Lookup(DispositionParams(t), key).Some?
    ensures j < |SplitOn(t, ';')|
    ensures var (k, v) := UrlCodec.PairOf(SplitOn(t, ';')[j]);
      TrimQuotes(k) == key && TrimQuotes(v) == Lookup(DispositionParams(t), key).value
  {
    hide SplitOn, UrlCodec.PairOf, TrimQuotes, UrlCodec.Collected, Lookup;
    var i := LookupFrom(DispositionParams(t), key);
    j := QueryExact.CollectedFrom(SplitOn(t, ';'), {}, TrimQuotes, i);
  }

  /** No value found holds a separator or a character that is not in the text. */
  lemma FoundFree(t: string, key: string)
    requires Lookup(DispositionParams(t), key).Some?
    ensures var v := Lookup(DispositionParams(t), key).value;
      ';' !in v && '=' !in v && forall c :: c in v ==> c in t
  {
    hide SplitOn, UrlCodec.PairOf, TrimQuotes, DispositionParams, Lookup;
    var j := FoundIn(t, key);
    var kv := SplitOn(t, ';')[j];
    PieceFree(t, ';', j);
    PairFree(kv);
    UnquotedFree(UrlCodec.PairOf(kv).1);
  }

  // ---------------------------------------------------------------- an extended file name is too short

  /** The pieces of a line whose name is free of separators: the name's own, and those of the rest. */
  lemma SettingsPieces(file: FileInfo)
    requires NameOk(file.name) && file.filename != ""
    ensures var n := Setting("name", file.name);
      && Glue(Settings(file), "; ") == n + ";" + (" " + Setting("filename", file.filename))
      && SplitOn(Glue(Settings(file), "; "), ';')
         == [n] + SplitOn(" " + Setting("filename", file.filename), ';')
  {
    hide SplitOn, Setting;
    var n, f := Setting("name", file.name), Setting("filename", file.filename);
    assert Settings(file) == [n, f] && [n, f][1..] == [f];
    assert Glue([n, f], "; ") == n + "; " + f;
    assert n + "; " + f == n + ";" + (" " + f);
    SettingClean("name", file.name);
    SplitCons(n, ';', " " + f);
    KeptIs(n, "");
    assert "" + n == n;
  }

  /** Whatever follows `filename*=` in a serialized line is shorter than the file name. */
  lemma ExtendedShort(file: FileInfo)
    requires NameOk(file.name) && file.filename != ""
    requires Lookup(DispositionParams(Glue(Settings(file), "; ")), "filename*").Some?
    ensures |Lookup(DispositionParams(Glue(Settings(file), "; ")), "filename*").value| < |file.filename| + 7
  {
    hide SplitOn, UrlCodec.PairOf, TrimQuotes, DispositionParams, Lookup, Glue, Settings, Setting;
    var t, rest := Glue(Settings(file), "; "), " " + Setting("filename", file.filename);
    var j := FoundIn(t, "filename*");
    SettingsPieces(file);
    var kv := SplitOn(t, ';')[j];
    var (k, v) := UrlCodec.PairOf(kv);
    UnquotedFree(k);
    UnquotedFree(v);
    if j == 0 {
      NameFirst(file.name);
    } else {
      assert kv == SplitOn(rest, ';')[j - 1];
      QueryExact.PieceShort(rest, ';', j - 1);
      PairFree(kv);
      SettingLength("filename", file.filename);
    }
  }

  lemma SettingLength(key: string, value: string)
    ensures |Setting(key, value)| == |key| + |value| + 3
  {
  }

  lemma NameFirst(name: string)
    requires NameOk(name)
    ensures TrimQuotes(UrlCodec.PairOf(Setting("name", name)).0) == "name"
  {
    hide UrlCodec.PairOf;
    SettingRead("name", name);
  }

  // ---------------------------------------------------------------- the exact condition

  lemma TailStarts(file: FileInfo)
    ensures var t := Glue(Settings(file), "; ");
      t != "" && t[0] == 'n'
      && (forall c :: c in file.name ==> c in t) && (forall c :: c in file.filename ==> c in t)
  {
    var n, f := Setting("name", file.name), Setting("filename", file.filename);
    assert forall i :: 0 <= i < |file.name| ==> n[6 + i] == file.name[i];
    assert forall i :: 0 <= i < |file.filename| ==> f[10 + i] == file.filename[i];
    if file.filename == "" {
      assert Settings(file) == [n];
    } else {
      assert Settings(file) == [n, f] && [n, f][1..] == [f];
      assert Glue([n, f], "; ") == n + "; " + f;
    }
  }

  /** A line that is read at all holds no line end, and is read as its settings say. */
  lemma LineReads(file: FileInfo)
    requires OnHeader(NO_FILE, DispositionLine(file)).Some?
    ensures var t := Glue(Settings(file), "; ");
      && '\r' !in t && '\n' !in t
      && OnHeader(NO_FILE, DispositionLine(file)) == WithParams(NO_FILE, DispositionParams(t))
  {
    hide Glue, SkipSpace, Settings, AfterPrefix, DispositionParams, WithParams;
    var t, line := Glue(Settings(file), "; "), DispositionLine(file);
    TailStarts(file);
    AfterPrefixIs(FORM_DATA, t);
    AfterPrefixIs(DISPOSITION, FORM_DATA + " " + t);
    assert line[8] == DISPOSITION[8];
    assert Lower(line[8]) != Lower(CONTENT_TYPE[8]);
    assert Lower(line[8]) != Lower("Content-Length:"[8]);
  }

  lemma NamesSurvive(file: FileInfo)
    requires OnHeader(NO_FILE, DispositionLine(file)) == Some(file.(contentType := ""))
    ensures NameOk(file.name) && NameOk(file.filename)
  {
    hide Glue, Settings, DispositionParams, OnHeader, DispositionLine, Lookup;
    var t := Glue(Settings(file), "; ");
    var ps := DispositionParams(t);
    LineReads(file);
    TailStarts(file);
    FoundFree(t, "name");
    assert NameOk(file.name);
    if file.filename != "" {
      var extended := Lookup(ps, "filename*");
      if extended.Some? {
        ExtendedShort(file);
        UrlCodec.RawExact(ExtendedValue(extended.value).value, false);
      } else {
        FoundFree(t, "filename");
      }
    }
  }

  /** MAIN RESULT.  A serialized Content-Disposition line gives name and file name back if and only if
      neither holds `;`, `=`, CR or LF. */
  lemma DispositionExact(file: FileInfo)
    ensures OnHeader(NO_FILE, DispositionLine(file)) == Some(file.(contentType := ""))
       <==> NameOk(file.name) && NameOk(file.filename)
  {
    hide OnHeader, DispositionLine;
    if NameOk(file.name) && NameOk(file.filename) {
      DispositionRead(file);
    }
    if OnHeader(NO_FILE, DispositionLine(file)) == Some(file.(contentType := "")) {
      NamesSurvive(file);
    }
  }
}
