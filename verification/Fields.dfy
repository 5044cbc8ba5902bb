/** `parse_header`: one header or trailer line. */
module Fields {
  import opened Text
  import UrlCodec

  predicate IsLocation(key: string) {
    |key| == |LOCATION| && forall i :: 0 <= i < |key| ==> Lower(key[i]) == Lower(LOCATION[i])
  }

  const LOCATION := "Location"

  /** The value of a field is decoded, except a location. */
  function ValueOf(key: string, text: string): string {
    if IsLocation(key) then text else UrlCodec.Decoded(text, false)
  }

  /** The field a line holds, its last two bytes being its end; nothing, if it is no field or empty. */
  function Parsed(line: string): seq<(string, string)> {
    if |line| < 2 then [] else FieldIn(TrimRight(line[..|line| - 2]))
  }

  function FieldIn(text: string): seq<(string, string)> {
    var colon := IndexFrom(text, ':', 0);
    if colon == |text| || TrimLeft(text[colon + 1..]) == "" then []
    else [(text[..colon], ValueOf(text[..colon], TrimLeft(text[colon + 1..])))]
  }

  /** The loops of `parse_header`. */
  method ParseHeader(line: string) returns (fields: seq<(string, string)>)
    ensures fields == Parsed(line)
  {
    hide TrimRight, TrimLeft, UrlCodec.Decoded;
    if |line| < 2 { return []; }
    var end := |line| - 2;
    TrimNothing(line, 0);
    while 0 < end && IsBlank(line[end - 1])
      invariant 0 <= end <= |line| - 2
      invariant TrimRight(line[..|line| - 2]) == TrimRight(line[..end])
    {
      TrimRightSlice(line, 0, end);
      end := end - 1;
    }
    ghost var text := line[..end];
    TrimRightShort(text);
    var p := 0;
    while p < end && line[p] != ':'
      invariant 0 <= p <= end && forall i :: 0 <= i < p ==> line[i] != ':'
    {
      p := p + 1;
    }
    IndexIs(text, ':', 0, p);
    if p == end { return []; }
    var keyEnd := p;
    p := p + 1;
    TrimNothing(line, end);
    while p < end && IsBlank(line[p])
      invariant keyEnd < p <= end
      invariant TrimLeft(line[keyEnd + 1..end]) == TrimLeft(line[p..end])
    {
      TrimLeftSlice(line, p, end);
      p := p + 1;
    }
    assert text[keyEnd + 1..] == line[keyEnd + 1..end] && text[..keyEnd] == line[..keyEnd];
    if p < end {
      TrimLeftSlice(line, p, end);
      return [(line[..keyEnd], ValueOf(line[..keyEnd], line[p..end]))];
    }
    return [];
  }

  // ---------------------------------------------------------------- which fields survive

  /** A field that comes back as it was written. */
  ghost predicate FieldOk(kv: (string, string)) {
    ':' !in kv.0 && kv.1 != "" && NoOuterBlanks(kv.1) && (IsLocation(kv.0) || UrlCodec.Raw(kv.1, false))
  }

  lemma {:induction false} TrimRightBehind(a: string, c: char, b: string)
    requires !IsBlank(c)
    ensures TrimRight(a + [c] + b) == a + [c] + TrimRight(b)
  {
    var s := a + [c] + b;
    if b == "" {
      assert s[|s| - 1] == c;
    } else {
      assert s[..|s| - 1] == a + [c] + b[..|b| - 1];
      assert s[|s| - 1] == b[|b| - 1];
      TrimRightBehind(a, c, b[..|b| - 1]);
    }
  }

  /** Trimming a blank and a value: the value where it has no outer blanks, else something shorter. */
  lemma TrimmedValue(x: string)
    ensures var v := TrimLeft(TrimRight(" " + x));
      |v| <= |x| && (|v| == |x| <==> NoOuterBlanks(x)) && (|v| == |x| ==> v == x)
  {
    var y := " " + x;
    var z := TrimRight(y);
    TrimRightShort(y);
    assert y[1..] == x;
    if z != "" {
      assert z[0] == ' ';
      TrimLeftShort(z[1..]);
      TrimRightShort(z);
      assert z == y ==> z[1..] == x;
      assert x != "" ==> y[|y| - 1] == x[|x| - 1];
    }
  }

  lemma FieldLine(key: string, x: string)
    ensures var line := key + ": " + x + CRLF;
      Parsed(line) == FieldIn(key + ":" + TrimRight(" " + x))
  {
    hide TrimRight, FieldIn;
    var line := key + ": " + x + CRLF;
    assert line[..|line| - 2] == key + ":" + (" " + x);
    TrimRightBehind(key, ':', " " + x);
  }

  lemma FieldParts(key: string, z: string)
    ensures var fs := FieldIn(key + ":" + z);
      if ':' in key then forall w :: fs != [(key, w)]
      else fs == if TrimLeft(z) == "" then [] else [(key, ValueOf(key, TrimLeft(z)))]
  {
    hide TrimLeft, ValueOf;
    var text := key + ":" + z;
    IndexLeast(text, ':', 0);
    var colon := IndexFrom(text, ':', 0);
    if ':' in key {
      var i :| 0 <= i < |key| && key[i] == ':';
      assert text[i] == ':' && colon <= i;
      assert |text[..colon]| < |key|;
    } else {
      assert forall i :: 0 <= i < |key| ==> text[i] == key[i];
      IndexIs(text, ':', 0, |key|);
      assert text[..|key|] == key && text[|key| + 1..] == z;
    }
  }

  /** A field line is read back exactly when the key holds no colon and the value is not empty, has no
      outer blanks and, unless it is a location, no complete escape. */
  lemma FieldExact(kv: (string, string))
    ensures Parsed(kv.0 + ": " + kv.1 + CRLF) == [kv] <==> FieldOk(kv)
  {
    hide TrimRight, TrimLeft, FieldIn, Parsed, NoOuterBlanks, IsLocation;
    var (key, x) := kv;
    var z := TrimRight(" " + x);
    var v := TrimLeft(z);
    FieldLine(key, x);
    FieldParts(key, z);
    TrimmedValue(x);
    UrlCodec.RawExact(v, false);
  }
}
