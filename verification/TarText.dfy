/** The batch text of telnet_sml_app.cpp: nothing in a row can end its string early,
    and the text tells the rows apart. */
module TarText {
  import opened TarCache
  import opened Sequences
  import JsonText

  // ---- Escaped characters -----------------------------------------------------------

  /** An escaped character has no control character in it, and a double quote only
      right after a backslash. */
  lemma EscapedChar(c: char)
    ensures var e := EscapeTarChar(c);
      && e != "" && e[0] != '"'
      && (forall i :: 0 <= i < |e| ==> e[i] as int >= 0x20)
      && (forall i :: 0 < i < |e| && e[i] == '"' ==> i == 1 && e[0] == '\\')
      && (e[0] == '\\' ==> |e| >= 2)
  {
  }

  lemma {:induction false} EscapeSplits(a: string, b: string)
    ensures EscapeTar(a + b) == EscapeTar(a) + EscapeTar(b)
    decreases |b|
  {
    hide EscapeTarChar;
    if b == "" {
      assert a + b == a;
    } else {
      var front, last := b[..|b| - 1], EscapeTarChar(b[|b| - 1]);
      assert (a + b)[..|a + b| - 1] == a + front;
      EscapeSplits(a, front);
      Regroup(EscapeTar(a), EscapeTar(front), last);
    }
  }

  lemma EscapeFront(s: string)
    requires s != ""
    ensures EscapeTar(s) == EscapeTarChar(s[0]) + EscapeTar(s[1..])
  {
    hide EscapeTarChar;
    EscapeSplits([s[0]], s[1..]);
    assert [s[0]] + s[1..] == s;
    assert [s[0]][..0] == "";
  }

  /** A bare double quote: one that no backslash of the escaped text takes. */
  predicate BareQuote(e: string) {
    e != "" && (e[0] == '"' || (if e[0] == '\\' then |e| >= 2 && BareQuote(e[2..]) else BareQuote(e[1..])))
  }

  lemma {:induction false} NoBareQuote(s: string)
    ensures !BareQuote(EscapeTar(s))
    decreases |s|
  {
    if s != "" {
      EscapeFront(s);
      NoBareQuote(s[1..]);
      SkipChar(s[0], EscapeTar(s[1..]));
    }
  }

  lemma PlainFirst(c: char, rest: string)
    requires c != '"' && c != '\\' && !BareQuote(rest)
    ensures !BareQuote([c] + rest)
  {
    assert ([c] + rest)[1..] == rest;
  }

  lemma SkipChar(c: char, rest: string)
    requires !BareQuote(rest)
    ensures !BareQuote(EscapeTarChar(c) + rest)
  {
    var e := EscapeTarChar(c);
    if |e| == 1 {
      PlainFirst(c, rest);
    } else if |e| == 2 {
      EscapedFirst(e[1], rest);
      assert e == ['\\', e[1]];
    } else {
      SkipHex(HexDigit(c as int / 16), HexDigit(c as int % 16), rest);
    }
  }

  lemma EscapedFirst(c: char, rest: string)
    requires !BareQuote(rest)
    ensures !BareQuote(['\\', c] + rest)
  {
    assert (['\\', c] + rest)[2..] == rest;
  }

  lemma SkipHex(h: char, l: char, rest: string)
    requires !BareQuote(rest) && h != '"' && h != '\\' && l != '"' && l != '\\'
    ensures !BareQuote("\\u00" + [h, l] + rest)
  {
    hide BareQuote;
    PlainFirst(l, rest);
    PlainFirst(h, [l] + rest);
    PlainFirst('0', [h] + ([l] + rest));
    PlainFirst('0', ['0'] + ([h] + ([l] + rest)));
    EscapedFirst('u', ['0'] + (['0'] + ([h] + ([l] + rest))));
    assert "\\u00" + [h, l] + rest == ['\\', 'u'] + (['0'] + (['0'] + ([h] + ([l] + rest))));
  }

  /** What any JSON reader makes of the escaped text is the text. */
  lemma {:induction false} EscapeIsJson(s: string)
    ensures JsonText.Content(EscapeTar(s)) == s
    decreases |s|
  {
    if s != "" {
      EscapeFront(s);
      EscapeIsJson(s[1..]);
      assert s == [s[0]] + s[1..];
      hide EscapeTar;
      CharIsJson(s[0], EscapeTar(s[1..]));
    }
  }

  lemma CharIsJson(c: char, rest: string)
    ensures JsonText.Content(EscapeTarChar(c) + rest) == [c] + JsonText.Content(rest)
  {
    EscapedMeans(c);
    hide EscapeTarChar, JsonText.Content, JsonText.EscapeMeans;
    var e := EscapeTarChar(c);
    if |e| == 1 {
      JsonText.PlainContent(c, rest);
    } else if |e| == 2 {
      JsonText.EscapeContent(e[1], rest);
    } else {
      HexIsJson(c, rest);
    }
  }

  lemma EscapedMeans(c: char)
    ensures var e := EscapeTarChar(c);
      && (|e| == 1 || |e| == 2 || |e| == 6)
      && (|e| == 1 ==> e == [c] && c != '\\')
      && (|e| == 2 ==> e == ['\\', e[1]] && e[1] != 'u' && JsonText.EscapeMeans(e[1]) == c)
  {
  }

  lemma HexIsJson(c: char, rest: string)
    requires |EscapeTarChar(c)| == 6
    ensures JsonText.Content(EscapeTarChar(c) + rest) == [c] + JsonText.Content(rest)
  {
    hide EscapeTarChar, HexDigit, JsonText.FromHex, JsonText.Content;
    HexEscape(c);
    var h, l := HexDigit(c as int / 16), HexDigit(c as int % 16);
    HexMeans(c as int / 16, c as int % 16);
    JsonText.HexContent(['0', '0', h, l], rest);
    assert "\\u00" + [h, l] + rest == ['\\', 'u'] + (['0', '0', h, l] + rest);
  }

  lemma HexEscape(c: char)
    requires |EscapeTarChar(c)| == 6
    ensures c as int < 256 && EscapeTarChar(c) == "\\u00" + [HexDigit(c as int / 16), HexDigit(c as int % 16)]
  {
    hide HexDigit;
  }

  lemma HexMeans(high: nat, low: nat)
    requires high < 16 && low < 16
    ensures JsonText.FromHex(['0', '0', HexDigit(high), HexDigit(low)]) as int == high * 16 + low
  {
    HexValueOf(high);
    HexValueOf(low);
  }

  lemma HexValueOf(d: nat)
    requires d < 16
    ensures JsonText.HexValue(HexDigit(d)) == d
  {
  }

  // ---- The text determines the rows ----------------------------------------------------

  /** Two escaped characters, whatever follows each, start alike only if equal. */
  lemma CharDetermined(c: char, d: char, u: string, v: string)
    requires EscapeTarChar(c) + u == EscapeTarChar(d) + v
    ensures c == d && u == v
  {
    hide EscapeTarChar;
    var e, f := EscapeTarChar(c), EscapeTarChar(d);
    assert forall i :: 0 <= i < |e| ==> (e + u)[i] == e[i];
    assert forall i :: 0 <= i < |f| ==> (f + v)[i] == f[i];
    if c == d {
      SameStart(e, u, v);
    } else {
      CodesDiffer(c, d);
    }
  }

  lemma CodesDiffer(c: char, d: char)
    requires c != d
    ensures var e, f := EscapeTarChar(c), EscapeTarChar(d); exists i :: 0 <= i < |e| && i < |f| && e[i] != f[i]
  {
    var e, f := EscapeTarChar(c), EscapeTarChar(d);
    if |e| == 6 && |f| == 6 {
      HexDiffer(c as int, d as int);
      assert e[4] != f[4] || e[5] != f[5];
    } else if e[0] == f[0] {
      assert e[1] != f[1];
    }
  }

  lemma HexDiffer(c: nat, d: nat)
    requires c != d && c < 0x20 && d < 0x20
    ensures HexDigit(c / 16) != HexDigit(d / 16) || HexDigit(c % 16) != HexDigit(d % 16)
  {
  }

  lemma SameStart(a: string, u: string, v: string)
    requires a + u == a + v
    ensures u == v
  {
    assert (a + u)[|a|..] == u && (a + v)[|a|..] == v;
  }

  lemma StartsUnquoted(t: string, v: string)
    requires t != ""
    ensures |EscapeTar(t) + v| > 0 && (EscapeTar(t) + v)[0] != '"'
  {
    hide EscapeTarChar;
    EscapeFront(t);
    EscapedChar(t[0]);
  }

  lemma {:induction false} EscapeDetermined(s: string, t: string, u: string, v: string)
    requires EscapeTar(s) + ("\"" + u) == EscapeTar(t) + ("\"" + v)
    ensures s == t && u == v
    decreases |s|
  {
    hide EscapeTarChar;
    assert EscapeTar("") + ("\"" + u) == "\"" + u && EscapeTar("") + ("\"" + v) == "\"" + v;
    if s == "" && t == "" {
      assert ("\"" + u)[1..] == u && ("\"" + v)[1..] == v;
    } else if s == "" {
      StartsUnquoted(t, "\"" + v);
    } else if t == "" {
      StartsUnquoted(s, "\"" + u);
    } else {
      EscapeFront(s);
      EscapeFront(t);
      Regroup(EscapeTarChar(s[0]), EscapeTar(s[1..]), "\"" + u);
      Regroup(EscapeTarChar(t[0]), EscapeTar(t[1..]), "\"" + v);
      CharDetermined(s[0], t[0], EscapeTar(s[1..]) + ("\"" + u), EscapeTar(t[1..]) + ("\"" + v));
      EscapeDetermined(s[1..], t[1..], u, v);
      assert [s[0]] + s[1..] == s && [t[0]] + t[1..] == t;
    }
  }

  /** The value of a run of decimal digits. */
  function NumberOf(digits: string): nat {
    if digits == "" then 0
    else NumberOf(digits[..|digits| - 1]) * 10
         + if '0' <= digits[|digits| - 1] <= '9' then digits[|digits| - 1] as int - '0' as int else 0
  }

  lemma {:induction false} DecimalMeans(n: nat)
    ensures NumberOf(Decimal(n)) == n
  {
    DecimalUnfolds(n);
    hide Decimal;
    assert NumberOf("") == 0;
    if n >= 10 {
      DecimalMeans(n / 10);
    }
    DigitMeans(n % 10);
  }

  lemma DigitMeans(d: nat)
    requires d < 10
    ensures '0' <= "0123456789"[d] <= '9' && "0123456789"[d] as int - '0' as int == d
  {
  }

  predicate AllDigits(s: string) {
    s != "" && forall i :: 0 <= i < |s| ==> '0' <= s[i] <= '9'
  }

  lemma {:induction false} DecimalDigits(n: nat)
    ensures AllDigits(Decimal(n))
  {
    if n >= 10 {
      DecimalDigits(n / 10);
    }
  }

  lemma DecimalUnfolds(n: nat)
    ensures var s := Decimal(n);
      && s != "" && s[|s| - 1] == "0123456789"[n % 10]
      && s[..|s| - 1] == (if n < 10 then "" else Decimal(n / 10))
      && (|s| == 1 <==> n < 10)
  {
    if n >= 10 {
      DecimalDigits(n / 10);
    }
  }

  lemma {:induction false} DecimalInjective(a: nat, b: nat)
    requires Decimal(a) == Decimal(b)
    ensures a == b
  {
    hide Decimal;
    DecimalUnfolds(a);
    DecimalUnfolds(b);
    assert a % 10 == b % 10;
    if a >= 10 {
      DecimalInjective(a / 10, b / 10);
    }
  }

  lemma DecimalDetermined(a: nat, b: nat, u: string, v: string)
    requires Decimal(a) + ("," + u) == Decimal(b) + ("," + v)
    ensures a == b && u == v
  {
    hide Decimal;
    var s, t := Decimal(a), Decimal(b);
    var x, y := s + ("," + u), t + ("," + v);
    DecimalDigits(a);
    DecimalDigits(b);
    assert x[|s|] == ',' && y[|t|] == ',';
    assert forall i :: 0 <= i < |s| ==> x[i] == s[i];
    assert forall i :: 0 <= i < |t| ==> y[i] == t[i];
    assert |s| == |t|;
    assert s == x[..|s|] && t == y[..|t|] && x[|s|..] == "," + u && y[|t|..] == "," + v;
    assert ("," + u)[1..] == u && ("," + v)[1..] == v;
    DecimalInjective(a, b);
  }

  const BEFORE_INDEX := "{\"idx\":"
  const BEFORE_DATA := "\"data\":\""

  /** A row's text, whatever follows, as its parts one after the other. */
  lemma RowParts(row: Row, u: string)
    ensures RowText(row) + u ==
      BEFORE_INDEX + (Decimal(row.idx) + ("," + (BEFORE_DATA + (EscapeTar(row.data) + ("\"" + ("}" + u))))))
  {
    hide Decimal, EscapeTar;
  }

  lemma RowDetermined(r1: Row, r2: Row, u: string, v: string)
    requires RowText(r1) + u == RowText(r2) + v
    ensures r1 == r2 && u == v
  {
    hide RowText, Decimal, EscapeTar, BEFORE_INDEX, BEFORE_DATA;
    RowParts(r1, u);
    RowParts(r2, v);
    var x1, x2 := "\"" + ("}" + u), "\"" + ("}" + v);
    var d1, d2 := EscapeTar(r1.data) + x1, EscapeTar(r2.data) + x2;
    SameStart(BEFORE_INDEX, Decimal(r1.idx) + ("," + (BEFORE_DATA + d1)), Decimal(r2.idx) + ("," + (BEFORE_DATA + d2)));
    DecimalDetermined(r1.idx, r2.idx, BEFORE_DATA + d1, BEFORE_DATA + d2);
    SameStart(BEFORE_DATA, d1, d2);
    EscapeDetermined(r1.data, r2.data, "}" + u, "}" + v);
    SameStart("}", u, v);
  }

  lemma {:induction false} RowsFront(rows: seq<Row>)
    requires rows != []
    ensures RowsText(rows) == RowText(rows[0]) + ((if |rows| > 1 then "," else "") + RowsText(rows[1..]))
    decreases |rows|
  {
    hide RowText;
    var front := rows[..|rows| - 1];
    if |rows| == 1 {
      assert front == [] && rows[1..] == [];
    } else {
      RowsFront(front);
      var last, middle := RowText(rows[|rows| - 1]), RowsText(front[1..]);
      var tail := rows[1..];
      assert tail[..|tail| - 1] == front[1..] && tail[|tail| - 1] == rows[|rows| - 1];
      assert RowsText(tail) == middle + (if |tail| > 1 then "," else "") + last;
      assert RowsText(rows) == RowsText(front) + "," + last;
      hide RowsText;
      if |front| == 1 {
        assert middle == "" && tail == [rows[|rows| - 1]] by {
          assert front[1..] == [];
          NoRows();
        }
      } else {
        Shuffle(RowText(rows[0]), middle, last);
      }
    }
  }

  lemma NoRows()
    ensures RowsText([]) == ""
  {
  }

  lemma Shuffle(first: string, middle: string, last: string)
    ensures (first + ("," + middle)) + "," + last == first + ("," + (middle + "," + last))
  {
  }

  lemma {:induction false} RowsDetermined(rows1: seq<Row>, rows2: seq<Row>)
    requires RowsText(rows1) + "]" == RowsText(rows2) + "]"
    ensures rows1 == rows2
    decreases |rows1|
  {
    hide RowText, RowsText;
    if rows1 != [] && rows2 != [] {
      BothStart(rows1, rows2);
      if |rows1| > 1 {
        RowsDetermined(rows1[1..], rows2[1..]);
      }
      assert [rows1[0]] + rows1[1..] == rows1 && [rows2[0]] + rows2[1..] == rows2;
    } else if rows1 != [] {
      OneEmpty(rows1);
    } else if rows2 != [] {
      OneEmpty(rows2);
    }
  }

  lemma BothStart(rows1: seq<Row>, rows2: seq<Row>)
    requires rows1 != [] && rows2 != [] && RowsText(rows1) + "]" == RowsText(rows2) + "]"
    ensures rows1[0] == rows2[0] && (|rows1| > 1 <==> |rows2| > 1)
    ensures RowsText(rows1[1..]) + "]" == RowsText(rows2[1..]) + "]"
  {
    hide RowText, RowsText;
    var t1, t2 := RowTail(rows1), RowTail(rows2);
    RowDetermined(rows1[0], rows2[0], t1, t2);
    assert |rows1| > 1 <==> t1[0] == ',' by {
      TailStarts(rows1);
    }
    assert |rows2| > 1 <==> t2[0] == ',' by {
      TailStarts(rows2);
    }
    TailStarts(rows1);
    TailStarts(rows2);
  }

  /** What follows the first row. */
  function RowTail(rows: seq<Row>): (t: string)
    requires rows != []
    ensures RowsText(rows) + "]" == RowText(rows[0]) + t
  {
    RowsFront(rows);
    (if |rows| > 1 then "," else "") + (RowsText(rows[1..]) + "]")
  }

  lemma TailStarts(rows: seq<Row>)
    requires rows != []
    ensures var t := RowTail(rows); var rest := RowsText(rows[1..]) + "]";
      t != "" && (if |rows| > 1 then t[0] == ',' && t[1..] == rest else t[0] == ']' && t == rest)
  {
    hide RowText;
  }

  lemma OneEmpty(rows: seq<Row>)
    requires rows != []
    ensures RowsText(rows) + "]" != RowsText([]) + "]"
  {
    RowParts(rows[0], RowTail(rows));
    assert (RowsText(rows) + "]")[0] == '{';
    assert (RowsText([]) + "]")[0] == ']';
  }

  /** The form of a row and of a batch, by example. */
  lemma BatchExample(a: Row, b: Row)
    ensures RowText(Row(7, "a")) == "{\"idx\":7,\"data\":\"a\"}"
    ensures BatchText("R", []) == "TAR_BATCH_ALL:R:[]"
    ensures BatchText("R", [a, b]) == "TAR_BATCH_ALL:R:[" + RowText(a) + "," + RowText(b) + "]"
  {
    RowExample();
    hide RowText;
    assert [a, b][..1] == [a] && [a][..0] == [];
    assert RowsText([a]) == RowText(a);
    assert RowsText([a, b]) == RowText(a) + "," + RowText(b);
  }

  lemma RowExample()
    ensures RowText(Row(7, "a")) == "{\"idx\":7,\"data\":\"a\"}"
  {
    hide EscapeTar, Decimal;
    PartsExample();
  }

  lemma PartsExample()
    ensures EscapeTar("a") == "a" && Decimal(7) == "7"
  {
    assert "a"[..0] == "" && "a"[0] == 'a';
    assert EscapeTar("") == "" && EscapeTarChar('a') == "a";
  }

  /** For one relay, different rows give different batch texts. */
  lemma BatchDetermined(relay: string, rows1: seq<Row>, rows2: seq<Row>)
    ensures BatchText(relay, rows1) == BatchText(relay, rows2) ==> rows1 == rows2
  {
    hide RowsText;
    var head := "TAR_BATCH_ALL:" + relay + ":[";
    if BatchText(relay, rows1) == BatchText(relay, rows2) {
      Regroup(head, RowsText(rows1), "]");
      Regroup(head, RowsText(rows2), "]");
      SameStart(head, RowsText(rows1) + "]", RowsText(rows2) + "]");
      RowsDetermined(rows1, rows2);
    }
  }
}
