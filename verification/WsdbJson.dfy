/** websocket API/wsdb_json.hpp: the JSON escaper and the text-search extractor of
    string members.  Escapes are those of section 7 of RFC 8259. */
module WsdbJson {
  import opened Wrappers
  import opened Strings
  import opened Sequences
  import JsonText

  const BACKSPACE: char := 8 as char
  const FORM_FEED: char := 12 as char

  // ---- escape --------------------------------------------------------------------

  function EscapeChar(c: char): (e: string)
    ensures |e| == 1 || |e| == 2
    ensures |e| == 2 ==> e[0] == '\\'
    ensures |e| == 1 ==> e == [c] && c != '"' && c != '\\'
  {
    if c == '"' then "\\\"" else if c == '\\' then "\\\\"
    else if c == BACKSPACE then "\\b" else if c == FORM_FEED then "\\f"
    else if c == '\n' then "\\n" else if c == '\r' then "\\r" else if c == '\t' then "\\t"
    else [c]
  }

  function Escape(s: string): string {
    if s == "" then "" else EscapeChar(s[0]) + Escape(s[1..])
  }

  lemma {:induction false} EscapeGrows(s: string, c: char)
    ensures Escape(s + [c]) == Escape(s) + EscapeChar(c)
  {
    if s == "" {
      assert [c][1..] == "";
    } else {
      var t := s + [c];
      assert t != "" && t[1..] == s[1..] + [c] && t[0] == s[0];
      assert Escape(t) == EscapeChar(t[0]) + Escape(t[1..]) && Escape(s) == EscapeChar(s[0]) + Escape(s[1..]);
      EscapeGrows(s[1..], c);
      hide Escape, EscapeChar;
      Regroup(EscapeChar(s[0]), Escape(s[1..]), EscapeChar(c));
    }
  }

  /** What any JSON reader makes of the escaped text is the text. */
  lemma {:induction false} EscapeIsJson(s: string)
    ensures JsonText.Content(Escape(s)) == s
  {
    if s != "" {
      var c, rest := s[0], Escape(s[1..]);
      EscapeIsJson(s[1..]);
      assert s == [c] + s[1..];
      assert Escape(s) == EscapeChar(c) + rest;
      hide Escape;
      CharIsJson(c, rest);
    }
  }

  lemma CharIsJson(c: char, rest: string)
    ensures JsonText.Content(EscapeChar(c) + rest) == [c] + JsonText.Content(rest)
  {
    EscapedMeans(c);
    hide EscapeChar, JsonText.Content, JsonText.EscapeMeans;
    var e := EscapeChar(c);
    if |e| == 1 {
      JsonText.PlainContent(c, rest);
    } else {
      JsonText.EscapeContent(e[1], rest);
    }
  }

  lemma EscapedMeans(c: char)
    ensures var e := EscapeChar(c);
      |e| == 2 ==> e == ['\\', e[1]] && e[1] != 'u' && JsonText.EscapeMeans(e[1]) == c
  {
  }

  method EscapeJson(s: string) returns (out: string)
    ensures out == Escape(s)
  {
    out := "";
    for k := 0 to |s|
      invariant out == Escape(s[..k])
    {
      assert s[..k + 1] == s[..k] + [s[k]];
      EscapeGrows(s[..k], s[k]);
      var ch := s[k];
      if ch == '"' {
        out := out + "\\\"";
      } else if ch == '\\' {
        out := out + "\\\\";
      } else if ch == BACKSPACE {
        out := out + "\\b";
      } else if ch == FORM_FEED {
        out := out + "\\f";
      } else if ch == '\n' {
        out := out + "\\n";
      } else if ch == '\r' {
        out := out + "\\r";
      } else if ch == '\t' {
        out := out + "\\t";
      } else {
        out := out + [ch];
      }
    }
    assert s[..|s|] == s;
  }

  // ---- getString -----------------------------------------------------------------

  function Unescape(c: char): char {
    if c == 'n' then '\n' else if c == 'r' then '\r' else if c == 't' then '\t' else c
  }

  /** The characters of a string value up to its closing quote. */
  function Quoted(json: string, pos: nat): string
    decreases |json| - pos
  {
    if pos >= |json| || json[pos] == '"' then ""
    else if json[pos] == '\\' && pos + 1 < |json| then [Unescape(json[pos + 1])] + Quoted(json, pos + 2)
    else [json[pos]] + Quoted(json, pos + 1)
  }

  predicate Blank(c: char) { c == ' ' || c == '\t' }

  predicate EndsBare(c: char) { c == ',' || c == '}' || c == ']' }

  /** A number, boolean or null, with white space removed. */
  function Bare(json: string, pos: nat): string
    decreases |json| - pos
  {
    if pos >= |json| || EndsBare(json[pos]) then ""
    else (if Blank(json[pos]) || json[pos] == '\n' || json[pos] == '\r' then "" else [json[pos]]) + Bare(json, pos + 1)
  }

  function SkipBlanks(json: string, pos: nat): (r: nat)
    ensures pos <= r
    decreases |json| - pos
  {
    if pos < |json| && Blank(json[pos]) then SkipBlanks(json, pos + 1) else pos
  }

  function Needle(key: string): string { "\"" + key + "\"" }

  /** The value after the first colon from `pos` on. */
  function ValueAfter(json: string, pos: nat): string {
    var colon := Find(json, ":", pos);
    if colon.None? then ""
    else
      var p := SkipBlanks(json, colon.value + 1);
      if p >= |json| then "" else if json[p] == '"' then Quoted(json, p + 1) else Bare(json, p)
  }

  /** getString, its search starting at `from`. */
  function Lookup(json: string, key: string, from: nat): string {
    var hit := Find(json, Needle(key), from);
    if hit.None? then "" else ValueAfter(json, hit.value + |Needle(key)|)
  }

  method GetString(json: string, key: string) returns (val: string)
    ensures val == Lookup(json, key, 0)
  {
    hide Find, Quoted, Bare;
    var needle := "\"" + key + "\"";
    var found := Find(json, needle, 0);
    if found.None? {
      return "";
    }
    found := Find(json, ":", found.value + |needle|);
    if found.None? {
      return "";
    }
    var pos := found.value + 1;
    while pos < |json| && Blank(json[pos])
      invariant SkipBlanks(json, found.value + 1) == SkipBlanks(json, pos)
      decreases |json| - pos
    {
      pos := pos + 1;
    }
    if pos >= |json| {
      return "";
    }
    if json[pos] == '"' {
      val := GetQuoted(json, pos + 1);
    } else {
      val := GetBare(json, pos);
    }
  }

  lemma QuotedUnfolds(val: string, json: string, pos: nat)
    ensures val + Quoted(json, pos) ==
      if pos >= |json| || json[pos] == '"' then val
      else if json[pos] == '\\' && pos + 1 < |json| then (val + [Unescape(json[pos + 1])]) + Quoted(json, pos + 2)
      else (val + [json[pos]]) + Quoted(json, pos + 1)
  {
  }

  method GetQuoted(json: string, start: nat) returns (val: string)
    ensures val == Quoted(json, start)
  {
    hide Quoted;
    val := "";
    var pos := start;
    assert "" + Quoted(json, start) == Quoted(json, start);
    while pos < |json| && json[pos] != '"'
      invariant Quoted(json, start) == val + Quoted(json, pos)
      decreases |json| - pos
    {
      QuotedUnfolds(val, json, pos);
      if json[pos] == '\\' && pos + 1 < |json| {
        pos := pos + 1;
        if json[pos] == '"' {
          val := val + ['"'];
        } else if json[pos] == '\\' {
          val := val + ['\\'];
        } else if json[pos] == 'n' {
          val := val + ['\n'];
        } else if json[pos] == 'r' {
          val := val + ['\r'];
        } else if json[pos] == 't' {
          val := val + ['\t'];
        } else {
          val := val + [json[pos]];
        }
      } else {
        val := val + [json[pos]];
      }
      pos := pos + 1;
    }
    QuotedUnfolds(val, json, pos);
  }

  method GetBare(json: string, start: nat) returns (val: string)
    ensures val == Bare(json, start)
  {
    hide Bare;
    val := "";
    var pos := start;
    assert "" + Bare(json, start) == Bare(json, start);
    while pos < |json| && json[pos] != ',' && json[pos] != '}' && json[pos] != ']'
      invariant Bare(json, start) == val + Bare(json, pos)
      decreases |json| - pos
    {
      BareUnfolds(val, json, pos);
      if json[pos] != ' ' && json[pos] != '\t' && json[pos] != '\n' && json[pos] != '\r' {
        val := val + [json[pos]];
      }
      pos := pos + 1;
    }
    BareUnfolds(val, json, pos);
  }

  lemma BareUnfolds(val: string, json: string, pos: nat)
    ensures val + Bare(json, pos) ==
      if pos >= |json| || EndsBare(json[pos]) then val
      else if Blank(json[pos]) || json[pos] == '\n' || json[pos] == '\r' then val + Bare(json, pos + 1)
      else (val + [json[pos]]) + Bare(json, pos + 1)
  {
  }

  // ---- Keys and values in an object -----------------------------------------------------

  predicate IdentifierChar(c: char) {
    ('a' <= c <= 'z') || ('A' <= c <= 'Z') || ('0' <= c <= '9') || c == '_'
  }

  predicate Identifier(key: string) {
    key != "" && forall i :: 0 <= i < |key| ==> IdentifierChar(key[i])
  }

  function KeyText(key: string): string { "\"" + key + "\":" }

  function ValueText(value: string): string { "\"" + Escape(value) + "\"" }

  /** What survives escape and getString: backspace and form feed become letters. */
  function Lossy(s: string): string {
    if s == "" then "" else [LossyChar(s[0])] + Lossy(s[1..])
  }

  function LossyChar(c: char): char {
    if c == BACKSPACE then 'b' else if c == FORM_FEED then 'f' else c
  }

  lemma {:induction false} LossyIff(s: string)
    ensures Lossy(s) == s <==> BACKSPACE !in s && FORM_FEED !in s
  {
    if s != "" {
      LossyIff(s[1..]);
      assert s == [s[0]] + s[1..];
    }
  }

  /** The value, rendered, contains the quoted key: it is the key, or ends with a
      double quote and the key. */
  predicate Mimics(value: string, key: string) {
    value == key || EndsQuoted(value, key)
  }

  predicate EndsQuoted(value: string, key: string) {
    |value| > |key| && value[|value| - |key| - 1..] == "\"" + key
  }

  // ---- Positions in a rendered object -------------------------------------------------

  /** From `o` on, the text starts with `part`. */
  predicate At(text: string, o: nat, part: string) {
    o + |part| <= |text| && text[o..o + |part|] == part
  }

  lemma AtParts(text: string, o: nat, a: string, b: string)
    requires At(text, o, a + b)
    ensures At(text, o, a) && At(text, o + |a|, b)
  {
    var whole := text[o..o + |a + b|];
    assert whole[..|a|] == a && whole[|a|..] == b;
    assert text[o..o + |a|] == whole[..|a|];
    assert text[o + |a|..o + |a| + |b|] == whole[|a|..];
  }

  lemma AtChar(text: string, o: nat, part: string, i: nat)
    requires At(text, o, part) && i < |part|
    ensures text[o + i] == part[i]
  {
    assert text[o..o + |part|][i] == part[i];
  }

  ghost predicate Clear(text: string, needle: string, a: nat, b: nat) {
    forall i :: a <= i < b ==> !OccursAt(text, needle, i)
  }

  lemma {:induction false} FindSkips(text: string, needle: string, a: nat, b: nat)
    requires a <= b <= |text| && Clear(text, needle, a, b)
    ensures Find(text, needle, a) == Find(text, needle, b)
    decreases b - a
  {
    if a < b {
      FindSkips(text, needle, a + 1, b);
      if a + |needle| > |text| {
        assert Find(text, needle, b).None?;
      }
    }
  }

  /** An occurrence of the quoted key: a quote, the key, a quote. */
  lemma OccursIff(text: string, key: string, i: nat)
    ensures OccursAt(text, Needle(key), i) <==>
      i < |text| && text[i] == '"' && At(text, i + 1, key) && i + 1 + |key| < |text| && text[i + 1 + |key|] == '"'
  {
    if i + |Needle(key)| <= |text| {
      var s := text[i..i + |Needle(key)|];
      assert s == [text[i]] + text[i + 1..i + 1 + |key|] + [text[i + 1 + |key|]];
      assert s[0] == text[i] && s[1..1 + |key|] == text[i + 1..i + 1 + |key|] && s[1 + |key|] == text[i + 1 + |key|];
      assert Needle(key)[0] == '"' && Needle(key)[1..1 + |key|] == key && Needle(key)[1 + |key|] == '"';
    }
  }

  /** Right after a quote, an escaped value up to its closing quote reads as the key
      only if it is the key. */
  lemma {:induction false} ValueIsKey(text: string, p: nat, value: string, key: string)
    requires At(text, p, Escape(value) + "\"")
    requires forall i :: 0 <= i < |key| ==> IdentifierChar(key[i])
    ensures At(text, p, key) && p + |key| < |text| && text[p + |key|] == '"' <==> value == key
    decreases |value|
  {
    var e := Escape(value) + "\"";
    AtChar(text, p, e, 0);
    if value == key {
      EscapeIdentifier(key);
      AtParts(text, p, Escape(value), "\"");
      AtChar(text, p, e, |key|);
    } else if At(text, p, key) && p + |key| < |text| && text[p + |key|] == '"' {
      KeyPrefix(text, p, value, key);
    }
  }

  lemma {:induction false} KeyPrefix(text: string, p: nat, value: string, key: string)
    requires At(text, p, Escape(value) + "\"")
    requires forall i :: 0 <= i < |key| ==> IdentifierChar(key[i])
    requires At(text, p, key) && p + |key| < |text| && text[p + |key|] == '"'
    ensures value == key
    decreases |value|
  {
    hide At, Escape, EscapeChar;
    AtChar(text, p, Escape(value) + "\"", 0);
    FirstEscaped(value);
    if key != "" {
      AtChar(text, p, key, 0);
      assert IdentifierChar(key[0]);
      EscapeHead(value);
      assert key == [key[0]] + key[1..] && value == [value[0]] + value[1..];
      AtParts(text, p, [value[0]], Escape(value[1..]) + "\"");
      AtParts(text, p, [key[0]], key[1..]);
      KeyPrefix(text, p + 1, value[1..], key[1..]);
    }
  }

  /** The first character tells an empty value, an escape and a plain one apart. */
  lemma FirstEscaped(value: string)
    ensures var first := (Escape(value) + "\"")[0];
      && (first == '"' <==> value == "")
      && (value != "" && first != '\\' ==> EscapeChar(value[0]) == [value[0]] && first == value[0])
  {
  }

  /** Inside an escaped value the quoted key occurs exactly when the value ends with
      a quote and the key, and then it ends with the closing quote. */
  lemma {:induction false} InsideValue(text: string, p: nat, value: string, key: string, i: nat)
    requires At(text, p, Escape(value) + "\"") && Identifier(key)
    requires p <= i < p + |Escape(value)|
    ensures OccursAt(text, Needle(key), i) <==> EndsQuoted(value, key) && i + 1 + |key| == p + |Escape(value)|
    decreases |value|
  {
    hide OccursAt, EndsQuoted;
    var c, rest := EscapeChar(value[0]), value[1..];
    assert Escape(value) + "\"" == c + (Escape(rest) + "\"");
    AtParts(text, p, c, Escape(rest) + "\"");
    if i < p + |c| {
      InsideHead(text, p, value, key, i);
    } else {
      InsideValue(text, p + |c|, rest, key, i);
      EndsQuotedTail(value, key);
      if value[0] == '"' && rest == key {
        EscapeIdentifier(key);
        NotBoth(key);
      }
    }
  }

  lemma NotBoth(key: string)
    ensures !EndsQuoted(key, key)
  {
  }

  lemma InsideHead(text: string, p: nat, value: string, key: string, i: nat)
    requires value != "" && At(text, p, EscapeChar(value[0]) + (Escape(value[1..]) + "\"")) && Identifier(key)
    requires p <= i < p + |EscapeChar(value[0])|
    ensures OccursAt(text, Needle(key), i) <==> EndsQuoted(value, key) && i + 1 + |key| == p + |Escape(value)|
  {
    hide OccursAt, EndsQuoted, Escape, At;
    var c, rest := EscapeChar(value[0]), value[1..];
    AtParts(text, p, c, Escape(rest) + "\"");
    AtChar(text, p, c, i - p);
    OccursIff(text, key, i);
    if value[0] == '"' && i == p + 1 {
      HeadQuote(text, p, value, key);
    } else {
      HeadNoQuote(p, value, key, i);
    }
  }

  /** An escaped double quote: the key right after it is the rest of the value. */
  lemma HeadQuote(text: string, p: nat, value: string, key: string)
    requires value != "" && value[0] == '"' && Identifier(key) && At(text, p + 2, Escape(value[1..]) + "\"")
    ensures At(text, p + 2, key) && p + 2 + |key| < |text| && text[p + 2 + |key|] == '"' <==>
      EndsQuoted(value, key) && 2 + |key| == |Escape(value)|
  {
    hide EndsQuoted, At;
    var rest := value[1..];
    ValueIsKey(text, p + 2, rest, key);
    QuotedHead(value, key);
    EndsQuotedTail(value, key);
    assert |Escape(value)| == 2 + |Escape(rest)|;
    hide Escape;
    if rest == key {
      EscapeIdentifier(key);
    } else if EndsQuoted(rest, key) {
      EndsQuotedNonempty(rest, key);
      EndsQuotedLength(rest, key);
    }
  }

  lemma HeadNoQuote(p: nat, value: string, key: string, i: nat)
    requires value != "" && Identifier(key) && p <= i < p + |EscapeChar(value[0])|
    requires value[0] != '"' || i == p
    ensures EscapeChar(value[0])[i - p] != '"'
    ensures !(EndsQuoted(value, key) && i + 1 + |key| == p + |Escape(value)|)
  {
    hide EndsQuoted, Escape, EscapeChar, Identifier;
    HeadChars(value, i - p);
    QuoteBefore(value, key);
  }

  /** The last but key character of an escaped value that ends quoted is a quote. */
  lemma QuoteBefore(value: string, key: string)
    requires value != "" && Identifier(key)
    ensures EndsQuoted(value, key) ==>
      |Escape(value)| >= |key| + 2 && Escape(value)[|Escape(value)| - |key| - 1] == '"'
  {
    hide EndsQuoted, Escape, EscapeChar;
    EndsQuotedLength(value, key);
    var e := Escape(value);
    if EndsQuoted(value, key) {
      assert e[|e| - |key| - 1] == e[|e| - |key| - 2..][1] == '"';
    }
  }

  lemma HeadChars(value: string, j: nat)
    requires value != "" && j < |EscapeChar(value[0])| && (value[0] != '"' || j == 0)
    ensures EscapeChar(value[0])[j] != '"'
    ensures j < |Escape(value)| && Escape(value)[j] == EscapeChar(value[0])[j]
  {
  }

  lemma EndsQuotedNonempty(value: string, key: string)
    requires EndsQuoted(value, key)
    ensures value != ""
  {
  }

  lemma QuotedHead(value: string, key: string)
    requires value != "" && value[0] == '"'
    ensures value[1..] == key ==> EndsQuoted(value, key)
  {
    assert value == [value[0]] + value[1..];
    if value[1..] == key {
      assert value[0..] == value;
    }
  }

  /** A value ends quoted either as a whole or in its tail. */
  lemma EndsQuotedTail(value: string, key: string)
    requires value != ""
    ensures EndsQuoted(value, key) <==> EndsQuoted(value[1..], key) || (value[0] == '"' && value[1..] == key)
  {
    var at := |value| - |key| - 1;
    if at > 0 {
      assert value[1..][at - 1..] == value[at..];
    } else if at == 0 {
      assert value[0..] == value == [value[0]] + value[1..];
    }
  }

  lemma {:induction false} EscapeIdentifier(key: string)
    requires forall i :: 0 <= i < |key| ==> IdentifierChar(key[i])
    ensures Escape(key) == key
  {
    if key != "" {
      EscapeIdentifier(key[1..]);
      assert key == [key[0]] + key[1..];
    }
  }

  lemma {:induction false} EscapeNoShorter(s: string)
    ensures |s| <= |Escape(s)|
  {
    if s != "" {
      EscapeNoShorter(s[1..]);
    }
  }

  /** The escaped tail of a value that ends quoted is the key itself. */
  lemma {:induction false} EndsQuotedLength(value: string, key: string)
    requires value != "" && (forall i :: 0 <= i < |key| ==> IdentifierChar(key[i])) && key != ""
    ensures EndsQuoted(value, key) ==>
      |Escape(value)| >= |key| + 2 && Escape(value)[|Escape(value)| - |key| - 2..] == "\\\"" + key
    decreases |value|
  {
    hide EndsQuoted;
    if EndsQuoted(value, key) {
      EndsQuotedTail(value, key);
      var c, rest := EscapeChar(value[0]), value[1..];
      assert Escape(value) == c + Escape(rest);
      if EndsQuoted(rest, key) {
        EndsQuotedNonempty(rest, key);
        EndsQuotedLength(rest, key);
        hide Escape;
        var at := |Escape(rest)| - |key| - 2;
        assert (c + Escape(rest))[|c| + at..] == Escape(rest)[at..];
      } else {
        EscapeIdentifier(key);
        hide Escape;
        assert (c + key)[0..] == c + key && c == "\\\"";
      }
    }
  }

  // ---- Reading one member --------------------------------------------------------------

  /** Reading an escaped value back up to its closing quote. */
  lemma {:induction false} QuotedReads(text: string, p: nat, value: string)
    requires At(text, p, Escape(value) + "\"")
    ensures Quoted(text, p) == Lossy(value)
    decreases |value|
  {
    if value == "" {
      AtChar(text, p, Escape(value) + "\"", 0);
    } else {
      hide At, Escape, EscapeChar, Quoted, LossyChar;
      var c, rest := EscapeChar(value[0]), value[1..];
      EscapeHead(value);
      AtParts(text, p, c, Escape(rest) + "\"");
      QuotedReads(text, p + |c|, rest);
      QuotedChar(text, p, value[0]);
    }
  }

  lemma QuotedChar(text: string, p: nat, c: char)
    requires At(text, p, EscapeChar(c))
    ensures Quoted(text, p) == [LossyChar(c)] + Quoted(text, p + |EscapeChar(c)|)
  {
    var e := EscapeChar(c);
    AtChar(text, p, e, 0);
    AtChar(text, p, e, |e| - 1);
  }

  lemma EscapeHead(value: string)
    requires value != ""
    ensures Escape(value) + "\"" == EscapeChar(value[0]) + (Escape(value[1..]) + "\"")
  {
  }

  lemma ColonAt(text: string, a: nat, b: nat)
    requires a <= b < |text| && text[b] == ':' && forall i :: a <= i < b ==> text[i] != ':'
    ensures Find(text, ":", a) == Some(b)
  {
    forall i: nat ensures OccursAt(text, ":", i) <==> i < |text| && text[i] == ':' {
      OccursChar(text, ':', i);
    }
    FindIs(text, ":", a, b);
  }

  lemma OccursChar(text: string, c: char, i: nat)
    ensures OccursAt(text, [c], i) <==> i < |text| && text[i] == c
  {
    if i < |text| {
      assert text[i..i + 1] == [text[i]];
      assert [text[i]][0] == text[i] && [c][0] == c;
    }
  }

  lemma AtSpan(text: string, o: nat, part: string)
    requires At(text, o, part)
    ensures o + |part| <= |text|
  {
  }

  /** The quoted key occurs in a member's key text only at its start, and only if the
      keys are equal. */
  lemma KeyRegion(text: string, o: nat, name: string, key: string, i: nat)
    requires At(text, o, KeyText(name)) && Identifier(name) && Identifier(key)
    requires o <= i < o + |KeyText(name)|
    ensures OccursAt(text, Needle(key), i) <==> i == o && name == key
  {
    hide OccursAt, At, Escape;
    OccursIff(text, key, i);
    AtChar(text, o, KeyText(name), i - o);
    assert KeyText(name) == "\"" + ((name + "\"") + ":");
    AtParts(text, o, "\"", (name + "\"") + ":");
    AtParts(text, o + 1, name + "\"", ":");
    if i == o {
      EscapeIdentifier(name);
      ValueIsKey(text, o + 1, name, key);
    } else if i == o + 1 + |name| {
      AtChar(text, o + 2 + |name|, ":", 0);
      NotKeyAt(text, i + 1, key);
    } else if i < o + 1 + |name| {
      assert KeyText(name)[i - o] == name[i - o - 1] && IdentifierChar(name[i - o - 1]);
    }
  }

  lemma NotKeyAt(text: string, i: nat, key: string)
    requires Identifier(key) && i < |text| && !IdentifierChar(text[i])
    ensures !At(text, i, key)
  {
    assert IdentifierChar(key[0]);
    if At(text, i, key) {
      AtChar(text, i, key, 0);
    }
  }

  /** The quoted key occurs in a rendered value only at its very end, and only if the
      value mimics the key. */
  lemma ValueRegion(text: string, p: nat, value: string, key: string, i: nat)
    requires At(text, p, ValueText(value)) && Identifier(key)
    requires p + |ValueText(value)| < |text| && !IdentifierChar(text[p + |ValueText(value)|])
    requires p <= i < p + |ValueText(value)|
    ensures OccursAt(text, Needle(key), i) <==> Mimics(value, key) && i + |Needle(key)| == p + |ValueText(value)|
  {
    hide OccursAt, At, Escape, EndsQuoted;
    OccursIff(text, key, i);
    assert ValueText(value) == "\"" + (Escape(value) + "\"");
    AtParts(text, p, "\"", Escape(value) + "\"");
    AtChar(text, p, "\"", 0);
    if i == p {
      ValueIsKey(text, p + 1, value, key);
      if value == key {
        EscapeIdentifier(key);
      } else if EndsQuoted(value, key) {
        EndsQuotedNonempty(value, key);
        EndsQuotedLength(value, key);
      }
    } else if i < p + 1 + |Escape(value)| {
      InsideValueText(text, p, value, key, i);
    } else {
      NotKeyAt(text, i + 1, key);
    }
  }

  lemma InsideValueText(text: string, p: nat, value: string, key: string, i: nat)
    requires At(text, p + 1, Escape(value) + "\"") && Identifier(key)
    requires p < i < p + 1 + |Escape(value)|
    ensures OccursAt(text, Needle(key), i) <==> Mimics(value, key) && i + |Needle(key)| == p + |ValueText(value)|
  {
    hide OccursAt, At, Escape, EndsQuoted;
    InsideValue(text, p + 1, value, key, i);
    if value == key {
      EscapeIdentifier(key);
      NotBoth(key);
    }
  }

  lemma {:induction false} MimicFits(value: string, key: string)
    requires Mimics(value, key) && Identifier(key)
    ensures |Needle(key)| <= |ValueText(value)|
  {
    EscapeNoShorter(value);
  }
}
