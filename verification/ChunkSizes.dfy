/** Chunk size lines that this engine did not write: other digits, leading zeros, extensions. */
module ChunkSizes {
  import opened Text
  import opened Chunked
  import Fields

  // ---------------------------------------------------------------- digits

  /** The sixteen hexadecimal digits, in either case, and nothing else. */
  lemma DigitExact(c: char, v: nat)
    requires v < 16
    ensures DigitValue(c) == v <==> c == "0123456789abcdef"[v] || c == "0123456789ABCDEF"[v]
    ensures DigitValue(c) < 16 && (DigitValue(c) < 0 <==> c !in "0123456789abcdefABCDEF")
  {
  }

  predicate HexText(ds: string) { forall i :: 0 <= i < |ds| ==> DigitValue(ds[i]) >= 0 }

  // ---------------------------------------------------------------- strtoul

  /** The text begins with digits, and not with a prefix. */
  ghost predicate NoPrefix(t: string) {
    !(|t| >= 3 && t[0] == '0' && (t[1] == 'x' || t[1] == 'X') && DigitValue(t[2]) >= 0)
  }

  /** White space, a sign and a prefix are skipped; the digits up to the first other character count, with
      the largest number in place of a larger one, and a minus sign counts down from 2^64. */
  lemma StrtoulReads(w: string, sign: string, prefix: string, ds: string, tail: string)
    requires Spaces(w) && (sign == "" || sign == "+" || sign == "-")
    requires prefix == "" || prefix == "0x" || prefix == "0X"
    requires ds != "" && HexText(ds) && (tail == "" || DigitValue(tail[0]) < 0)
    requires prefix == "" ==> NoPrefix(ds + tail)
    ensures Strtoul(w + (sign + (prefix + (ds + tail)))) ==
      Some(if ValueOf(ds) > 0xffff_ffff_ffff_ffff then 0xffff_ffff_ffff_ffff
           else if sign == "-" && ValueOf(ds) > 0 then 0x1_0000_0000_0000_0000 - ValueOf(ds)
           else ValueOf(ds))
  {
    hide ValueOf, SkipSpace, DigitRun, SkipPrefix;
    var body := ds + tail;
    var t := prefix + body;
    var s := sign + t;
    assert t[0] == if prefix == "" then ds[0] else '0';
    assert s[0] == if sign == "" then t[0] else sign[0];
    assert !Spaces(s[..1]) by { assert s[..1][0] == s[0]; }
    SkipSpaces(w, s);
    assert sign != "" ==> s[1..] == t;
    assert sign == "" ==> s == t;
    Prefixed(prefix, body);
    DigitRunIs(ds, tail);
    assert body[..|ds|] == ds;
  }

  lemma Prefixed(prefix: string, body: string)
    requires prefix == "" || prefix == "0x" || prefix == "0X"
    requires body != "" && DigitValue(body[0]) >= 0 && (prefix == "" ==> NoPrefix(body))
    ensures SkipPrefix(prefix + body) == body
  {
    var t := prefix + body;
    if prefix == "" {
      assert t == body;
    } else {
      assert t[2] == body[0] && t[2..] == body;
    }
  }

  /** Without a digit nothing is converted. */
  lemma StrtoulNothing(w: string, sign: string, tail: string)
    requires Spaces(w) && (sign == "+" || sign == "-" || sign == "")
    requires sign == "" && tail != "" ==> !Spaces(tail[..1]) && tail[0] !in "+-"
    requires tail == "" || DigitValue(tail[0]) < 0
    ensures Strtoul(w + (sign + tail)) == None
  {
    hide SkipSpace;
    var s := sign + tail;
    assert s != "" && sign != "" ==> s[..1][0] == sign[0];
    assert sign == "" ==> s == tail;
    assert !Spaces("+") && !Spaces("-") by { assert "+"[0] == '+' && "-"[0] == '-'; }
    assert sign != "" ==> s[..1] == sign && s[1..] == tail;
    SkipSpaces(w, s);
  }

  // ---------------------------------------------------------------- chunks

  /** MAIN RESULT.  A chunk is read whatever digits its size is written with, and whatever extension follows:
      anything that begins with no digit. */
  lemma AnyChunkRead(p: string, ds: string, ext: string, d: string, rest: string)
    requires ds != "" && HexText(ds) && ValueOf(ds) == |d| && 0 < |d| < 0xffff_ffff_ffff_ffff
    requires '\n' !in ext && (ext == "" || DigitValue(ext[0]) < 0)
    ensures Chunks(p, ds + ext + "\r\n" + (d + ("\r\n" + rest))) == Chunks(p + d, rest)
  {
    hide ValueOf, FirstLine, AfterLine, Strtoul;
    var line, t := ds + ext, d + (CRLF + rest);
    assert '\n' !in ds by { assert DigitValue('\n') < 0; }
    LineIs(line, t);
    SizeRead(ds, ext);
    assert t[..|d|] == d && t[|d|..] == CRLF + rest;
    assert "" + CRLF + rest == CRLF + rest && "" + CRLF == CRLF;
    LineIs("", rest);
  }

  lemma SizeRead(ds: string, ext: string)
    requires ds != "" && HexText(ds) && (ext == "" || DigitValue(ext[0]) < 0) && ValueOf(ds) < 0xffff_ffff_ffff_ffff
    requires ValueOf(ds) > 0 || ext == "" || (ext[0] != 'x' && ext[0] != 'X')
    ensures Strtoul(ds + ext + CRLF) == Some(ValueOf(ds))
  {
    hide ValueOf, Strtoul;
    var tail := ext + CRLF;
    assert tail[0] == if ext == "" then '\r' else ext[0];
    Assoc(ds, ext, CRLF);
    assert "" + ("" + ("" + (ds + tail))) == ds + tail;
    assert NoPrefix(ds + tail) by {
      if |ds| == 1 { OneZero(ds); } else { assert (ds + tail)[1] == ds[1]; }
    }
    StrtoulReads("", "", "", ds, tail);
  }

  lemma OneZero(ds: string)
    requires |ds| == 1 && HexText(ds)
    ensures ds[0] == '0' ==> ValueOf(ds) == 0
  {
    assert ds[..0] == "";
  }

  /** A size of nothing but zeros ends the body, whatever extension follows it. */
  lemma AnyEndRead(p: string, ds: string, ext: string, rest: string)
    requires ds != "" && (forall i :: 0 <= i < |ds| ==> ds[i] == '0') && '\n' !in ext
    requires ext == "" || (DigitValue(ext[0]) < 0 && ext[0] != 'x' && ext[0] != 'X')
    ensures Chunks(p, ds + ext + "\r\n" + ("\r\n" + rest)) == Good(p, [], rest)
  {
    hide ValueOf, FirstLine, AfterLine, Strtoul;
    Zeros(ds);
    LineIs(ds + ext, CRLF + rest);
    SizeRead(ds, ext);
    assert "" + CRLF + rest == CRLF + rest && "" + CRLF == CRLF;
    LineIs("", rest);
  }

  lemma {:induction false} Zeros(ds: string)
    requires forall i :: 0 <= i < |ds| ==> ds[i] == '0'
    ensures HexText(ds) && ValueOf(ds) == 0
  {
    if ds != "" { Zeros(ds[..|ds| - 1]); }
  }

  /** A trailer line of more than 8192 bytes is refused; a shorter one is read, and the next one looked at. */
  lemma TrailerLimit(p: string, fields: seq<(string, string)>, line: string, rest: string)
    requires '\n' !in line && line != ""
    ensures |line| + 2 > 8192 ==> Trailers(p, fields, line + "\r\n" + rest) == Bad
    ensures |line| + 2 <= 8192 ==>
      Trailers(p, fields, line + "\r\n" + rest) == Trailers(p, fields + Fields.Parsed(line + "\r\n"), rest)
  {
    hide FirstLine, AfterLine, Fields.Parsed;
    LineIs(line, rest);
  }

  /** A location, however it is spelled, is kept as it is; any other value is decoded. */
  lemma LocationExact(key: string, text: string)
    ensures Fields.IsLocation(key) <==>
      |key| == 8 && forall i :: 0 <= i < 8 ==> key[i] == "location"[i] || key[i] == "LOCATION"[i]
    ensures Fields.ValueOf("Location", text) == text
    ensures key == "" || (key[0] != 'l' && key[0] != 'L') ==> !Fields.IsLocation(key)
  {
  }
}
