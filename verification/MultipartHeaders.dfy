/** The header lines the serializer writes for one item are read back exactly. */
module MultipartHeaders {
  import opened Text
  import opened MultipartSpec
  import UrlCodec

  /** A name or file name that quoting protects. */
  predicate NameOk(s: string) { ';' !in s && '=' !in s && '\r' !in s && '\n' !in s }

  lemma AfterPrefixIs(prefix: string, t: string)
    requires t != "" && !IsSpace(t[0])
    ensures AfterPrefix(prefix + " " + t, prefix) == Some(t)
  {
    var s := prefix + " " + t;
    assert s[|prefix|..] == " " + t;
    assert (" " + t)[1..] == t;
    assert SkipSpace(" " + t) == SkipSpace(t) == t;
  }

  ghost predicate KeyOk(key: string) { key != "" && NameOk(key) && NoOuterBlanks(key) }

  lemma SettingClean(key: string, value: string)
    requires NameOk(value) && KeyOk(key)
    ensures PieceOk(Setting(key, value), ';') && Setting(key, value)[0] == key[0]
    ensures '\r' !in Setting(key, value) && '\n' !in Setting(key, value)
  {
  }

  lemma SettingRead(key: string, value: string)
    requires NameOk(value) && KeyOk(key) && '"' !in key
    ensures UrlCodec.Entry(Setting(key, value), TrimQuotes) == [(key, value)]
  {
    hide UrlCodec.PairOf;
    var q := Quote(value);
    UrlCodec.PairSplit(key, q);
    assert q[1..|q| - 1] == value;
  }

  lemma SettingsRead(file: FileInfo)
    requires NameOk(file.name) && NameOk(file.filename)
    ensures DispositionParams(Glue(Settings(file), "; ")) == SettingsOf(file)
  {
    hide SplitOn, UrlCodec.Entry, Glue, TrimQuotes;
    var n, f := Setting("name", file.name), Setting("filename", file.filename);
    SettingRead("name", file.name);
    SettingRead("filename", file.filename);
    SettingClean("name", file.name);
    SettingClean("filename", file.filename);
    SplitGlue(Settings(file), ';', "; ", "");
    assert "" + Glue(Settings(file), "; ") == Glue(Settings(file), "; ");
    if file.filename == "" {
      assert Settings(file) == [n];
      CollectedOne(n, {}, TrimQuotes);
    } else {
      assert Settings(file) == [n, f];
      assert [n, f][1..] == [f];
      CollectedOne(f, {n}, TrimQuotes);
      assert {} + {n} == {n};
    }
  }

  lemma CollectedOne(kv: string, cache: set<string>, g: string -> string)
    requires kv !in cache
    ensures UrlCodec.Collected([kv], cache, g) == UrlCodec.Entry(kv, g)
  {
    assert [kv][1..] == [];
  }

  lemma TailOk(file: FileInfo)
    requires NameOk(file.name) && NameOk(file.filename)
    ensures var t := Glue(Settings(file), "; ");
      t != "" && t[0] == 'n' && '\r' !in t && '\n' !in t
  {
    hide Setting;
    var n, f := Setting("name", file.name), Setting("filename", file.filename);
    SettingClean("name", file.name);
    SettingClean("filename", file.filename);
    if file.filename == "" {
      assert Settings(file) == [n];
    } else {
      assert Settings(file) == [n, f];
      assert [n, f][1..] == [f];
      assert Glue([n, f], "; ") == n + "; " + f;
    }
  }

  lemma DispositionTailIs(file: FileInfo)
    requires NameOk(file.name) && NameOk(file.filename)
    ensures DispositionTail(DispositionLine(file)) == Some(Glue(Settings(file), "; "))
    ensures '\r' !in DispositionLine(file)
  {
    hide Glue, SkipSpace, Settings, AfterPrefix;
    var t := Glue(Settings(file), "; ");
    TailOk(file);
    AfterPrefixIs(FORM_DATA, t);
    AfterPrefixIs(DISPOSITION, FORM_DATA + " " + t);
  }

  function SettingsOf(file: FileInfo): UrlCodec.Params {
    [("name", file.name)] + if file.filename == "" then [] else [("filename", file.filename)]
  }

  lemma ParamsTaken(file: FileInfo)
    ensures WithParams(NO_FILE, SettingsOf(file)) == Some(file.(contentType := ""))
  {
    var ps := SettingsOf(file);
    var rest := ps[1..];
    assert ps[0] == ("name", file.name);
    if file.filename == "" {
      assert rest == [];
    } else {
      assert rest == [("filename", file.filename)];
      assert rest[1..] == [];
    }
    assert Lookup(ps, "filename") == Lookup(rest, "filename");
    assert Lookup(ps, "filename*") == Lookup(rest, "filename*") == None;
  }

  lemma DispositionRead(file: FileInfo)
    requires NameOk(file.name) && NameOk(file.filename)
    ensures OnHeader(NO_FILE, DispositionLine(file)) == Some(file.(contentType := ""))
    ensures !Occurs(DispositionLine(file), CRLF)
  {
    hide DispositionParams, DispositionTail, Glue, Settings, WithParams;
    ParamsTaken(file);
    var line := DispositionLine(file);
    DispositionTailIs(file);
    SettingsRead(file);
    assert line[8] == DISPOSITION[8];
    assert Lower(line[8]) != Lower(CONTENT_TYPE[8]);
    assert Lower(line[8]) != Lower("Content-Length:"[8]);
    assert forall i :: HasAt(line, CRLF, i) ==> line[i] == CRLF[0];
  }

  lemma TypeRead(file: FileInfo)
    requires file.contentType != "" && NoOuterBlanks(file.contentType)
    requires !Occurs(file.contentType, CRLF)
    ensures var line := CONTENT_TYPE + " " + file.contentType;
      && OnHeader(file.(contentType := ""), line) == Some(file)
      && !Occurs(line, CRLF)
  {
    var line := CONTENT_TYPE + " " + file.contentType;
    assert line[|CONTENT_TYPE|..] == " " + file.contentType;
    TrimKeeps(file.contentType);
    forall i ensures !HasAt(line, CRLF, i) {
      var m := |CONTENT_TYPE| + 1;
      if 0 <= i && i + 2 <= |line| {
        if i < m {
          assert line[i..i + 2][0] == (CONTENT_TYPE + " ")[i] != CRLF[0];
        } else {
          assert line[i..i + 2] == file.contentType[i - m..i - m + 2];
          assert !HasAt(file.contentType, CRLF, i - m);
        }
      }
    }
  }
}
