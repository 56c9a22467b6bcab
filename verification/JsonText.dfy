/** The content of a JSON string, read by section 7 of RFC 8259. */
module JsonText {

  function HexValue(c: char): nat {
    if '0' <= c <= '9' then c as int - '0' as int
    else if 'a' <= c <= 'f' then c as int - 'a' as int + 10
    else if 'A' <= c <= 'F' then c as int - 'A' as int + 10
    else 0
  }

  /** The character of \uXXXX, below the surrogates. */
  function FromHex(h: string): char
    requires |h| == 4
  {
    var v := HexValue(h[0]) * 4096 + HexValue(h[1]) * 256 + HexValue(h[2]) * 16 + HexValue(h[3]);
    if v < 0xD800 then v as char else '?'
  }

  function EscapeMeans(c: char): char {
    if c == 'b' then 8 as char else if c == 'f' then 12 as char else if c == 'n' then 10 as char
    else if c == 'r' then 13 as char else if c == 't' then 9 as char else c
  }

  /** The text between the quotes, its escapes resolved. */
  function Content(e: string): string {
    if e == "" then ""
    else if e[0] != '\\' || |e| == 1 then [e[0]] + Content(e[1..])
    else if e[1] == 'u' && |e| >= 6 then [FromHex(e[2..6])] + Content(e[6..])
    else [EscapeMeans(e[1])] + Content(e[2..])
  }

  lemma PlainContent(c: char, rest: string)
    requires c != '\\'
    ensures Content([c] + rest) == [c] + Content(rest)
  {
    assert ([c] + rest)[1..] == rest;
  }

  lemma EscapeContent(c: char, rest: string)
    requires c != 'u'
    ensures Content(['\\', c] + rest) == [EscapeMeans(c)] + Content(rest)
  {
    assert (['\\', c] + rest)[2..] == rest;
  }

  lemma HexContent(h: string, rest: string)
    requires |h| == 4
    ensures Content(['\\', 'u'] + (h + rest)) == [FromHex(h)] + Content(rest)
  {
    var e := ['\\', 'u'] + (h + rest);
    assert e[2..6] == h && e[6..] == rest;
  }
}
