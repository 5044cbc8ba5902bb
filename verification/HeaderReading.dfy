/** What the multipart parser makes of header lines the serializer would not write: lines in any order,
    spelling and spacing, on a record that already holds something. */
module HeaderReading {
  import opened Text
  import opened MultipartSpec
  import opened MultipartHeaders
  import UrlCodec

  // ---------------------------------------------------------------- spelling

  /** The same letters, upper or lower case. */
  ghost predicate Spelled(a: string, b: string) {
    |a| == |b| && forall i :: 0 <= i < |b| ==>
      || a[i] == b[i]
      || ('A' <= b[i] <= 'Z' && a[i] as int == b[i] as int + 32)
      || ('a' <= b[i] <= 'z' && a[i] as int == b[i] as int - 32)
  }

  /** Case is ignored exactly for the letters from A to Z. */
  lemma SpelledExact(a: string, b: string)
    requires |a| == |b|
    ensures StartsWithIgnoreCase(a, b) <==> Spelled(a, b)
  {
    forall i | 0 <= i < |b|
      ensures Lower(a[i]) == Lower(b[i]) <==>
        || a[i] == b[i]
        || ('A' <= b[i] <= 'Z' && a[i] as int == b[i] as int + 32)
        || ('a' <= b[i] <= 'z' && a[i] as int == b[i] as int - 32)
    {
      LowerExact(a[i], b[i]);
    }
  }

  lemma LowerExact(c: char, d: char)
    ensures Lower(c) == Lower(d) <==>
      || c == d
      || ('A' <= d <= 'Z' && c as int == d as int + 32)
      || ('a' <= d <= 'z' && c as int == d as int - 32)
  {
  }

  lemma StartsSpelled(s: string, rest: string, p: string)
    requires Spelled(s, p)
    ensures StartsWithIgnoreCase(s + rest, p) && (s + rest)[|p|..] == rest
  {
    SpelledExact(s, p);
  }

  lemma OtherPrefix(line: string, s: string, p: string, i: nat)
    requires s <= line && i < |s| && i < |p| && Lower(s[i]) != Lower(p[i])
    ensures !StartsWithIgnoreCase(line, p)
  {
  }

  // ---------------------------------------------------------------- spaces

  ghost predicate Blanks(w: string) { forall i :: 0 <= i < |w| ==> w[i] == ' ' || w[i] == '\t' }

  lemma {:induction false} TrimsLeft(w: string, t: string)
    requires Blanks(w) && (t == "" || (t[0] != ' ' && t[0] != '\t'))
    ensures TrimLeft(w + t) == t
  {
    if w == "" {
      assert w + t == t;
    } else {
      assert (w + t)[1..] == w[1..] + t;
      TrimsLeft(w[1..], t);
    }
  }

  lemma {:induction false} TrimsRight(t: string, w: string)
    requires Blanks(w) && (t == "" || (t[|t| - 1] != ' ' && t[|t| - 1] != '\t'))
    ensures TrimRight(t + w) == t
  {
    if w == "" {
      assert t + w == t;
    } else {
      assert (t + w)[..|t + w| - 1] == t + w[..|w| - 1];
      TrimsRight(t, w[..|w| - 1]);
    }
  }

  /** Exactly the blanks and tabs around a text are trimmed. */
  lemma Trims(v: string, t: string, w: string)
    requires Blanks(v) && Blanks(w) && t != ""
    requires t[0] != ' ' && t[0] != '\t' && t[|t| - 1] != ' ' && t[|t| - 1] != '\t'
    ensures Trim(v + t + w) == t
  {
    Assoc(v, t, w);
    TrimsLeft(v, t + w);
    TrimsRight(t, w);
  }

  // ---------------------------------------------------------------- quotes

  /** Quotes are taken off a text that begins and ends with one; one quote alone stays. */
  lemma QuotesExact(s: string)
    ensures TrimQuotes("\"" + s + "\"") == s
    ensures s == "" || s[0] != '"' || s[|s| - 1] != '"' || |s| == 1 ==> TrimQuotes(s) == s
  {
    var q := "\"" + s + "\"";
    assert q[1..|q| - 1] == s;
  }

  // ---------------------------------------------------------------- single lines

  /** A type line sets the content type, and nothing else. */
  lemma TypeLine(f0: FileInfo, head: string, v: string, t: string, w: string)
    requires Spelled(head, "Content-Type:") && Blanks(v) && Blanks(w) && t != ""
    requires t[0] != ' ' && t[0] != '\t' && t[|t| - 1] != ' ' && t[|t| - 1] != '\t'
    ensures OnHeader(f0, head + (v + t + w)) == Some(FileInfo(f0.name, f0.filename, t))
  {
    hide Trim, StartsWithIgnoreCase, DispositionTail, WithParams;
    StartsSpelled(head, v + t + w, CONTENT_TYPE);
    Trims(v, t, w);
  }

  /** A length line changes nothing. */
  lemma LengthLine(f0: FileInfo, head: string, rest: string)
    requires Spelled(head, "Content-Length:")
    ensures OnHeader(f0, head + rest) == Some(f0)
  {
    hide StartsWithIgnoreCase, DispositionTail, WithParams, Trim;
    StartsSpelled(head, rest, "Content-Length:");
    assert head[8] == (head + rest)[8] && Lower(head[8]) == Lower('L') by { LowerExact(head[8], 'L'); }
    OtherPrefix(head + rest, head, CONTENT_TYPE, 8);
  }

  /** A disposition line is read by its parameters, however it is spelled and spaced. */
  lemma DispositionReads(f0: FileInfo, head: string, v: string, form: string, w: string, t: string)
    requires Spelled(head, "Content-Disposition:") && Spelled(form, "form-data;") && Spaces(v) && Spaces(w)
    requires t != "" && !Spaces(t[..1]) && '\r' !in t && '\n' !in t
    ensures OnHeader(f0, head + (v + (form + (w + t)))) == WithParams(f0, DispositionParams(t))
  {
    hide SkipSpace, WithParams, DispositionParams, StartsWithIgnoreCase, Trim;
    var line := head + (v + (form + (w + t)));
    assert head[8] == line[8] && Lower(head[8]) == Lower('D') by { LowerExact(head[8], 'D'); }
    OtherPrefix(line, head, CONTENT_TYPE, 8);
    OtherPrefix(line, head, "Content-Length:", 8);
    StartsSpelled(head, v + (form + (w + t)), DISPOSITION);
    assert (form + (w + t))[..1][0] == form[0];
    SkipSpaces(v, form + (w + t));
    StartsSpelled(form, w + t, FORM_DATA);
    SkipSpaces(w, t);
  }

  /** Any other line refuses the body. */
  lemma OtherLine(f0: FileInfo, line: string)
    requires |line| < 13 || !Spelled(line[..13], "Content-Type:")
    requires |line| < 15 || !Spelled(line[..15], "Content-Length:")
    requires |line| < 20 || !Spelled(line[..20], "Content-Disposition:")
    ensures OnHeader(f0, line) == None
  {
    hide DispositionParams, WithParams;
    NotStarts(line, CONTENT_TYPE);
    NotStarts(line, "Content-Length:");
    NotStarts(line, DISPOSITION);
  }

  lemma NotStarts(line: string, p: string)
    requires |line| < |p| || !Spelled(line[..|p|], p)
    ensures !StartsWithIgnoreCase(line, p)
  {
    if |line| >= |p| { SpelledExact(line[..|p|], p); }
  }

  // ---------------------------------------------------------------- parameters

  /** The first parameter of that name. */
  ghost predicate FirstOf(ps: UrlCodec.Params, key: string, i: nat) {
    i < |ps| && ps[i].0 == key && forall j :: 0 <= j < i ==> ps[j].0 != key
  }

  ghost predicate Lacks(ps: UrlCodec.Params, key: string) { forall j :: 0 <= j < |ps| ==> ps[j].0 != key }

  lemma {:induction false} LookupExact(ps: UrlCodec.Params, key: string)
    ensures Lookup(ps, key).None? <==> Lacks(ps, key)
    ensures forall i: nat :: FirstOf(ps, key, i) ==> Lookup(ps, key) == Some(ps[i].1)
  {
    if ps != [] {
      LookupExact(ps[1..], key);
      assert forall j :: 0 < j < |ps| ==> ps[j] == ps[1..][j - 1];
      forall i: nat | FirstOf(ps, key, i) ensures Lookup(ps, key) == Some(ps[i].1) {
        if i > 0 { assert FirstOf(ps[1..], key, i - 1); }
      }
    }
  }

  /** Without a name the body is refused. */
  lemma NameNeeded(f0: FileInfo, ps: UrlCodec.Params)
    requires Lacks(ps, "name")
    ensures WithParams(f0, ps) == None
  {
    LookupExact(ps, "name");
  }

  /** The first name, and the first file name if there is one; the rest of the record stays. */
  lemma NamesTaken(f0: FileInfo, ps: UrlCodec.Params, i: nat)
    requires FirstOf(ps, "name", i) && Lacks(ps, "filename*")
    ensures Lacks(ps, "filename") ==> WithParams(f0, ps) == Some(FileInfo(ps[i].1, f0.filename, f0.contentType))
    ensures forall j: nat :: FirstOf(ps, "filename", j) ==>
      WithParams(f0, ps) == Some(FileInfo(ps[i].1, ps[j].1, f0.contentType))
  {
    hide Lookup;
    LookupExact(ps, "name");
    LookupExact(ps, "filename");
    LookupExact(ps, "filename*");
  }

  /** An extended file name in UTF-8 takes the place of the plain one, decoded; any other is refused. */
  lemma ExtendedTaken(f0: FileInfo, ps: UrlCodec.Params, i: nat, k: nat)
    requires FirstOf(ps, "name", i) && FirstOf(ps, "filename*", k)
    ensures forall head, v :: Spelled(head, "UTF-8''") && v != "" && '\n' !in v && '\r' !in v && ps[k].1 == head + v ==>
      WithParams(f0, ps) == Some(FileInfo(ps[i].1, UrlCodec.Decoded(v, false), f0.contentType))
    ensures |ps[k].1| < 8 || !Spelled(ps[k].1[..7], "UTF-8''") ==> WithParams(f0, ps) == None
  {
    hide Lookup, UrlCodec.Decoded, StartsWithIgnoreCase;
    LookupExact(ps, "name");
    LookupExact(ps, "filename*");
    forall head, v | Spelled(head, "UTF-8''") && v != "" && '\n' !in v && '\r' !in v && ps[k].1 == head + v
      ensures WithParams(f0, ps) == Some(FileInfo(ps[i].1, UrlCodec.Decoded(v, false), f0.contentType))
    {
      StartsSpelled(head, v, "UTF-8''");
    }
    if |ps[k].1| < 8 || !Spelled(ps[k].1[..7], "UTF-8''") {
      if |ps[k].1| >= 7 && !Spelled(ps[k].1[..7], "UTF-8''") { NotStarts(ps[k].1, "UTF-8''"); }
    }
  }

  // ---------------------------------------------------------------- serialized lines, in any order

  /** A serialized disposition line sets the name, and the file name if it has one; the rest of the record
      stays as it was. */
  lemma DispositionKeeps(f0: FileInfo, file: FileInfo)
    requires NameOk(file.name) && NameOk(file.filename)
    ensures OnHeader(f0, DispositionLine(file))
         == Some(FileInfo(file.name, if file.filename == "" then f0.filename else file.filename, f0.contentType))
  {
    hide DispositionParams, Glue, Settings, WithParams, SkipSpace;
    var t := Glue(Settings(file), "; ");
    TailOk(file);
    assert !Spaces(t[..1]) by { assert t[..1][0] == 'n'; }
    DispositionReads(f0, DISPOSITION, " ", FORM_DATA, " ", t);
    assert DispositionLine(file) == DISPOSITION + (" " + (FORM_DATA + (" " + t))) by {
      Assoc(DISPOSITION, " ", FORM_DATA + " " + t);
    }
    SettingsRead(file);
    SettingsTaken(f0, file);
  }

  lemma SettingsTaken(f0: FileInfo, file: FileInfo)
    ensures WithParams(f0, SettingsOf(file))
         == Some(FileInfo(file.name, if file.filename == "" then f0.filename else file.filename, f0.contentType))
  {
    hide WithParams;
    var ps := SettingsOf(file);
    assert ps[0].0 == "name" && FirstOf(ps, "name", 0);
    assert Lacks(ps, "filename*");
    NamesTaken(f0, ps, 0);
    if file.filename == "" {
      assert Lacks(ps, "filename");
    } else {
      assert ps[1].0 == "filename" && FirstOf(ps, "filename", 1);
    }
  }

  /** The record after some header lines, `None` where one of them refuses the body. */
  function AfterLines(f: FileInfo, ls: seq<string>): Option<FileInfo>
    decreases |ls|
  {
    if ls == [] then Some(f)
    else match OnHeader(f, ls[0])
      case None => None
      case Some(g) => AfterLines(g, ls[1..])
  }

  /** An item's two lines fill the record in either order, with a length line anywhere. */
  lemma EitherOrder(file: FileInfo, head: string, rest: string)
    requires NameOk(file.name) && NameOk(file.filename) && file.contentType != "" && NoOuterBlanks(file.contentType)
    requires Spelled(head, "Content-Length:")
    ensures var d, t, l := DispositionLine(file), "Content-Type: " + file.contentType, head + rest;
      && AfterLines(NO_FILE, [d, t]) == Some(file) && AfterLines(NO_FILE, [t, d]) == Some(file)
      && AfterLines(NO_FILE, [l, t, d]) == Some(file) && AfterLines(NO_FILE, [t, l, d]) == Some(file)
      && AfterLines(NO_FILE, [t, d, l]) == Some(file)
  {
    hide OnHeader, DispositionLine;
    var d, t, l := DispositionLine(file), "Content-Type: " + file.contentType, head + rest;
    var c := file.contentType;
    assert t == "Content-Type:" + (" " + c + "") by {
      assert "Content-Type: " == "Content-Type:" + " ";
      Assoc("Content-Type:", " ", c);
      assert " " + c + "" == " " + c;
    }
    TypeLine(NO_FILE, "Content-Type:", " ", c, "");
    var typed := FileInfo("", "", c);
    DispositionKeeps(typed, file);
    DispositionKeeps(NO_FILE, file);
    TypeLine(FileInfo(file.name, file.filename, ""), "Content-Type:", " ", c, "");
    LengthLine(NO_FILE, head, rest);
    LengthLine(typed, head, rest);
    LengthLine(file, head, rest);
    assert OnHeader(typed, d) == Some(file);
    Three(NO_FILE, l, NO_FILE, t, typed, d, file);
    Three(NO_FILE, t, typed, l, typed, d, file);
    Three(NO_FILE, t, typed, d, file, l, file);
    Two(NO_FILE, t, typed, d, file);
    Two(NO_FILE, d, FileInfo(file.name, file.filename, ""), t, file);
  }

  lemma Two(f: FileInfo, l1: string, f1: FileInfo, l2: string, f2: FileInfo)
    requires OnHeader(f, l1) == Some(f1) && OnHeader(f1, l2) == Some(f2)
    ensures AfterLines(f, [l1, l2]) == Some(f2)
  {
    hide OnHeader;
    assert [l1, l2][1..] == [l2] && [l2][1..] == [];
    assert AfterLines(f2, []) == Some(f2);
    assert AfterLines(f1, [l2]) == Some(f2);
  }

  lemma Three(f: FileInfo, l1: string, f1: FileInfo, l2: string, f2: FileInfo, l3: string, f3: FileInfo)
    requires OnHeader(f, l1) == Some(f1) && OnHeader(f1, l2) == Some(f2) && OnHeader(f2, l3) == Some(f3)
    ensures AfterLines(f, [l1, l2, l3]) == Some(f3)
  {
    hide OnHeader;
    assert [l1, l2, l3][1..] == [l2, l3];
    Two(f1, l2, f2, l3, f3);
  }

  // ---------------------------------------------------------------- whole sections

  ghost predicate LinesOk(ls: seq<string>) { forall i :: 0 <= i < |ls| ==> ls[i] != "" && !Occurs(ls[i], CRLF) }

  /** Any header section is read line by line up to the blank line, and its record reported. */
  lemma {:induction false} SectionRead(accept: Receiver, p: Parser, ls: seq<string>, after: string)
    requires p.state == 2 && p.window == Lines(ls) + (CRLF + after) && LinesOk(ls)
    ensures var r := Headers(accept, p);
      match AfterLines(p.file, ls)
      case None => r.Stop? && !r.ok && !r.p.valid && r.p.events == p.events
      case Some(f) =>
        if accept(p.events + [HeaderSeen(f)])
        then r == Go(Parser(3, after, f, p.valid, p.events + [HeaderSeen(f)]))
        else r.Stop? && !r.ok && !r.p.valid
    decreases |ls|
  {
    hide Headers, OnHeader, FindFrom, Occurs;
    SectionStep(accept, p);
    if ls == [] {
      NoCrlf();
      NextLineEnd(p.window, "", after);
      assert p.window[2..] == after;
    } else {
      var more := Lines(ls[1..]) + (CRLF + after);
      Assoc(ls[0] + CRLF, Lines(ls[1..]), CRLF + after);
      assert p.window == ls[0] + CRLF + more;
      NextLineEnd(p.window, ls[0], more);
      var pos := |ls[0]|;
      assert p.window[..pos] == ls[0] && p.window[pos + 2..] == more;
      var f := OnHeader(p.file, ls[0]);
      if f.Some? {
        SectionRead(accept, Erase(p, pos + 2).(file := f.value), ls[1..], after);
      }
    }
  }

  lemma NoCrlf()
    ensures !Occurs("", CRLF)
  {
  }

  lemma NextLineEnd(w: string, line: string, after: string)
    requires w == line + CRLF + after && !Occurs(line, CRLF)
    ensures Find(w, CRLF) == |line| && |line| + 2 <= |w|
  {
    assert w + "" == w;
    FindDelimiter(w, "", line, CRLF, after);
  }

  lemma SectionStep(accept: Receiver, p: Parser)
    ensures var pos := Find(p.window, CRLF);
      && (pos == |p.window| || pos + 2 <= |p.window|)
      && Headers(accept, p) ==
        if pos == |p.window| then Stop(p, true)
        else if pos == 0 then
          var q := Emit(p, HeaderSeen(p.file));
          if accept(q.events) then Go(Erase(q, 2).(state := 3)) else Stop(q.(valid := false), false)
        else match OnHeader(p.file, p.window[..pos])
          case None => Stop(p.(valid := false), false)
          case Some(f) => Headers(accept, Erase(p, pos + 2).(file := f))
  {
    hide OnHeader, FindFrom;
    FindFromLeast(p.window, CRLF, 0);
  }

  /** A header section whose first line is longer than 8192 bytes is refused, a shorter one is read. */
  lemma LineLimit(accept: Receiver, p: Parser, line: string, after: string)
    requires p.state == 2 && p.window == line + "\r\n" + after && !Occurs(line, "\r\n")
    ensures |line| > 8192 ==> HeaderBlock(accept, p) == Stop(p, false)
    ensures |line| <= 8192 ==> HeaderBlock(accept, p) == Headers(accept, p)
  {
    hide Headers, FindFrom, Occurs;
    NextLineEnd(p.window, line, after);
  }

  // ---------------------------------------------------------------- what the serializer writes

  /** One item, letter by letter. */
  lemma SerializedItem(item: Item, b: string)
    ensures ItemText(item, b)
         == "--" + b + "\r\n"
            + ("Content-Disposition: form-data; name=\"" + item.file.name + "\""
               + (if item.file.filename == "" then "" else "; filename=\"" + item.file.filename + "\"") + "\r\n")
            + (if item.file.contentType == "" then "" else "Content-Type: " + item.file.contentType + "\r\n")
            + "\r\n" + item.content + "\r\n"
  {
    hide Settings, DispositionLine;
    DispositionText(item.file);
    var d := DispositionLine(item.file) + CRLF;
    var c := item.file.contentType;
    var t := if c == "" then "" else CONTENT_TYPE + " " + c + CRLF;
    assert Lines(HeaderLines(item.file)) == d + t by {
      var ls := HeaderLines(item.file);
      if c == "" {
        assert ls == [DispositionLine(item.file)] && ls[1..] == [];
        assert Lines([]) == "" && d + "" == d;
      } else {
        assert ls == [DispositionLine(item.file), CONTENT_TYPE + " " + c];
        assert ls[1..] == [CONTENT_TYPE + " " + c] && ls[1..][1..] == [];
        assert Lines([]) == "" && Lines(ls[1..]) == t + "" == t;
      }
    }
    assert CONTENT_TYPE + " " == "Content-Type: ";
    ItemJoin("--" + b, d, t, item.content);
  }

  lemma ItemJoin(h: string, d: string, t: string, x: string)
    ensures h + (CRLF + ((d + t) + (CRLF + (x + CRLF)))) == h + CRLF + d + t + CRLF + x + CRLF
  {
    hide *;
    Assoc(h, CRLF, (d + t) + (CRLF + (x + CRLF)));
    Assoc(h + CRLF, d + t, CRLF + (x + CRLF));
    Assoc(h + CRLF, d, t);
    Assoc(h + CRLF + d + t, CRLF, x + CRLF);
    Assoc(h + CRLF + d + t + CRLF, x, CRLF);
  }

  lemma DispositionText(file: FileInfo)
    ensures DispositionLine(file)
         == "Content-Disposition: form-data; name=\"" + file.name + "\""
            + if file.filename == "" then "" else "; filename=\"" + file.filename + "\""
  {
    hide Setting, Glue;
    var n, f := Setting("name", file.name), Setting("filename", file.filename);
    var head := "Content-Disposition: form-data; ";
    NameText(file.name, file.filename);
    SettingsText(file);
    if file.filename == "" {
      HeadText(n);
      assert head + n + "" == head + n;
    } else {
      HeadText(n + "; " + f);
      Assoc(head, n, "; " + f);
      Assoc(n, "; ", f);
    }
  }

  lemma SettingsText(file: FileInfo)
    ensures Glue(Settings(file), "; ")
         == Setting("name", file.name)
            + if file.filename == "" then "" else "; " + Setting("filename", file.filename)
  {
    hide Setting;
    var n, f := Setting("name", file.name), Setting("filename", file.filename);
    if file.filename == "" {
      assert Settings(file) == [n] && n + "" == n;
    } else {
      assert Settings(file) == [n, f] && [n, f][1..] == [f];
      Assoc(n, "; ", f);
    }
  }

  lemma NameText(name: string, filename: string)
    ensures "Content-Disposition: form-data; " + Setting("name", name)
         == "Content-Disposition: form-data; name=\"" + name + "\""
    ensures "; " + Setting("filename", filename) == "; filename=\"" + filename + "\""
  {
    hide *;
    SettingText("name", name);
    SettingText("filename", filename);
    assert "name" + "=\"" == "name=\"" && "filename" + "=\"" == "filename=\"";
    var head := "Content-Disposition: form-data; ";
    assert head + "name=\"" == "Content-Disposition: form-data; name=\"";
    Assoc(head, "name=\"" + name, "\"");
    Assoc(head, "name=\"", name);
    assert "; " + "filename=\"" == "; filename=\"";
    Assoc("; ", "filename=\"" + filename, "\"");
    Assoc("; ", "filename=\"", filename);
  }

  lemma SettingText(key: string, v: string)
    ensures Setting(key, v) == key + "=\"" + v + "\""
  {
  }

  lemma HeadText(g: string)
    ensures DISPOSITION + " " + (FORM_DATA + " " + g) == "Content-Disposition: form-data; " + g
    ensures DISPOSITION + " " + (FORM_DATA + " " + g) == DISPOSITION + (" " + (FORM_DATA + (" " + g)))
  {
    assert DISPOSITION + " " == "Content-Disposition: " && FORM_DATA + " " == "form-data; ";
    assert "Content-Disposition: " + "form-data; " == "Content-Disposition: form-data; ";
    Assoc("Content-Disposition: ", "form-data; ", g);
    Assoc(DISPOSITION, " ", FORM_DATA + " " + g);
    Assoc(FORM_DATA, " ", g);
  }

  /** The whole body: the items one after another, and the closing delimiter. */
  lemma {:induction false} SerializedBody(items: seq<Item>, b: string)
    ensures items == [] ==> Body(items, b) == "--" + b + "--\r\n"
    ensures items != [] ==> Body(items, b) == ItemText(items[0], b) + Body(items[1..], b)
  {
    hide ItemText;
    if items == [] {
      assert "" + Closing(b) == Closing(b);
      assert "--" + CRLF == "--\r\n";
    } else {
      Assoc(ItemText(items[0], b), ItemTexts(items[1..], b), Closing(b));
    }
  }
}
