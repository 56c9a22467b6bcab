/** websocket API/wsdb_json.hpp: what getString answers on rendered objects. */
module WsdbLookup {
  import opened Wrappers
  import opened Strings
  import opened WsdbJson

  // ---- Flat objects -----------------------------------------------------------------

  /** A string, or a number, boolean or null. */
  datatype Value = Text(text: string) | Plain(text: string)

  /** A member, with the blanks after its colon and the white space after its value. */
  datatype Field = Field(key: string, gap: string, value: Value, trail: string)

  predicate PlainChar(c: char) {
    c != ',' && c != '}' && c != ']' && c != '"' && c != ':' && c != ' ' && c != '\t' && c != '\n' && c != '\r'
  }

  predicate WellFormed(f: Field) {
    && Identifier(f.key)
    && (forall i :: 0 <= i < |f.gap| ==> f.gap[i] == ' ' || f.gap[i] == '\t')
    && (f.value.Plain? ==> f.value.text != "" && forall i :: 0 <= i < |f.value.text| ==> PlainChar(f.value.text[i]))
    && (forall i :: 0 <= i < |f.trail| ==>
          f.trail[i] == ' ' || f.trail[i] == '\t' || f.trail[i] == '\n' || f.trail[i] == '\r')
  }

  predicate FlatObject(fields: seq<Field>) {
    forall i :: 0 <= i < |fields| ==> WellFormed(fields[i])
  }

  function Shown(value: Value): string {
    if value.Text? then ValueText(value.text) else value.text
  }

  /** What stands between a member's colon and the separator. */
  function Body(f: Field): string { f.gap + (Shown(f.value) + f.trail) }

  /** The members and the closing brace. */
  function Members(fields: seq<Field>): string {
    if fields == [] then "}"
    else
      var sep := if |fields| > 1 then "," else "";
      KeyText(fields[0].key) + (Body(fields[0]) + (sep + Members(fields[1..])))
  }

  function Render(fields: seq<Field>): string {
    "{" + Members(fields)
  }

  /** What getString makes of a value. */
  function Reading(value: Value): string {
    if value.Text? then Lossy(value.text) else value.text
  }

  /** The value passes for the quoted key. */
  predicate PassesFor(value: Value, key: string) {
    value.Text? && Mimics(value.text, key)
  }

  /** What getString answers: the first member whose key matches gives its value; a
      value that passes for the key before that gives away the next member's value. */
  function Answer(fields: seq<Field>, key: string): string {
    if fields == [] then ""
    else if fields[0].key == key then Reading(fields[0].value)
    else if PassesFor(fields[0].value, key) then if |fields| > 1 then Reading(fields[1].value) else ""
    else Answer(fields[1..], key)
  }

  // ---- Reading one member --------------------------------------------------------------

  /** Blanks are skipped up to the first other character. */
  lemma {:induction false} GapSkipped(text: string, p: nat, gap: string)
    requires At(text, p, gap) && forall i :: 0 <= i < |gap| ==> gap[i] == ' ' || gap[i] == '\t'
    requires p + |gap| < |text| && text[p + |gap|] != ' ' && text[p + |gap|] != '\t'
    ensures SkipBlanks(text, p) == p + |gap|
    decreases |gap|
  {
    if gap != "" {
      AtChar(text, p, gap, 0);
      assert gap == [gap[0]] + gap[1..];
      AtParts(text, p, [gap[0]], gap[1..]);
      GapSkipped(text, p + 1, gap[1..]);
    }
  }

  /** A bare value ends here: at a separator, a closing bracket or the end of the text. */
  predicate Stops(text: string, q: nat) {
    q >= |text| || text[q] == ',' || text[q] == '}' || text[q] == ']'
  }

  /** White space and then a separator add nothing to a bare value. */
  lemma {:induction false} TrailRead(text: string, p: nat, trail: string)
    requires At(text, p, trail) && Stops(text, p + |trail|)
    requires forall i :: 0 <= i < |trail| ==>
      trail[i] == ' ' || trail[i] == '\t' || trail[i] == '\n' || trail[i] == '\r'
    ensures Bare(text, p) == ""
    decreases |trail|
  {
    if trail != "" {
      AtChar(text, p, trail, 0);
      assert trail == [trail[0]] + trail[1..];
      AtParts(text, p, [trail[0]], trail[1..]);
      TrailRead(text, p + 1, trail[1..]);
    }
  }

  lemma {:induction false} PlainRead(text: string, p: nat, plain: string)
    requires At(text, p, plain) && Bare(text, p + |plain|) == ""
    requires forall i :: 0 <= i < |plain| ==> PlainChar(plain[i])
    ensures Bare(text, p) == plain
    decreases |plain|
  {
    if plain != "" {
      AtChar(text, p, plain, 0);
      assert PlainChar(plain[0]);
      assert plain == [plain[0]] + plain[1..];
      AtParts(text, p, [plain[0]], plain[1..]);
      PlainRead(text, p + 1, plain[1..]);
    }
  }

  /** A bare value, then white space, then an end of it: the value is what is read. */
  lemma BareReads(text: string, p: nat, plain: string, trail: string)
    requires At(text, p, plain) && At(text, p + |plain|, trail) && Stops(text, p + |plain| + |trail|)
    requires forall i :: 0 <= i < |plain| ==> PlainChar(plain[i])
    requires forall i :: 0 <= i < |trail| ==>
      trail[i] == ' ' || trail[i] == '\t' || trail[i] == '\n' || trail[i] == '\r'
    ensures Bare(text, p) == plain
  {
    hide At, Bare;
    TrailRead(text, p + |plain|, trail);
    PlainRead(text, p, plain);
  }

  lemma BodyParts(text: string, p: nat, f: Field)
    requires At(text, p, Body(f))
    ensures At(text, p, f.gap) && At(text, p + |f.gap|, Shown(f.value))
    ensures At(text, p + |f.gap| + |Shown(f.value)|, f.trail)
    ensures |Body(f)| == |f.gap| + |Shown(f.value)| + |f.trail|
  {
    hide At, Shown;
    AtParts(text, p, f.gap, Shown(f.value) + f.trail);
    AtParts(text, p + |f.gap|, Shown(f.value), f.trail);
  }

  lemma ShownStarts(value: Value)
    requires value.Plain? ==> value.text != "" && PlainChar(value.text[0])
    ensures var s := Shown(value); s != "" && s[0] != ' ' && s[0] != '\t' && (s[0] == '"' <==> value.Text?)
  {
  }

  /** From anywhere before a member's colon, the value read is that member's. */
  lemma ValueReads(text: string, a: nat, b: nat, f: Field)
    requires WellFormed(f) && a <= b && At(text, b, ":") && At(text, b + 1, Body(f))
    requires b + 1 + |Body(f)| < |text| && (text[b + 1 + |Body(f)|] == ',' || text[b + 1 + |Body(f)|] == '}')
    requires forall i :: a <= i < b ==> text[i] != ':'
    ensures ValueAfter(text, a) == Reading(f.value)
  {
    hide *;
    AtSpan(text, b, ":");
    AtChar(text, b, ":", 0);
    ColonAt(text, a, b);
    BodyParts(text, b + 1, f);
    var p := b + 1 + |f.gap|;
    GapEnds(text, b + 1, f);
    ShownReads(text, p, f);
    ValueAfterIs(text, a, b, p);
  }

  lemma ValueAfterIs(text: string, a: nat, b: nat, p: nat)
    requires Find(text, ":", a) == Some(b) && SkipBlanks(text, b + 1) == p < |text|
    ensures ValueAfter(text, a) == if text[p] == '"' then Quoted(text, p + 1) else Bare(text, p)
  {
    hide Find, Quoted, Bare, SkipBlanks;
  }

  lemma GapEnds(text: string, p: nat, f: Field)
    requires WellFormed(f) && At(text, p, f.gap) && At(text, p + |f.gap|, Shown(f.value))
    ensures SkipBlanks(text, p) == p + |f.gap| < |text|
  {
    hide At, Shown, Identifier, SkipBlanks;
    assert f.value.Plain? ==> PlainChar(f.value.text[0]);
    ShownStarts(f.value);
    AtChar(text, p + |f.gap|, Shown(f.value), 0);
    AtSpan(text, p + |f.gap|, Shown(f.value));
    GapSkipped(text, p, f.gap);
  }

  lemma ShownReads(text: string, p: nat, f: Field)
    requires WellFormed(f) && At(text, p, Shown(f.value)) && At(text, p + |Shown(f.value)|, f.trail)
    requires var q := p + |Shown(f.value)| + |f.trail|; q < |text| && (text[q] == ',' || text[q] == '}')
    ensures p < |text| && Reading(f.value) == if text[p] == '"' then Quoted(text, p + 1) else Bare(text, p)
  {
    hide At, Quoted, Bare, Escape, Lossy, Identifier;
    assert f.value.Plain? ==> PlainChar(f.value.text[0]);
    ShownStarts(f.value);
    AtChar(text, p, Shown(f.value), 0);
    if f.value.Text? {
      assert ValueText(f.value.text) == "\"" + (Escape(f.value.text) + "\"");
      AtParts(text, p, "\"", Escape(f.value.text) + "\"");
      QuotedReads(text, p + 1, f.value.text);
    } else {
      BareReads(text, p, f.value.text, f.trail);
    }
  }

  /** The quoted key occurs between a member's colon and the separator only at the end of
      the value, and only if the value passes for the key. */
  lemma BodyRegion(text: string, p: nat, f: Field, key: string, i: nat)
    requires WellFormed(f) && At(text, p, Body(f)) && Identifier(key)
    requires p + |Body(f)| < |text| && !IdentifierChar(text[p + |Body(f)|]) && p <= i < p + |Body(f)|
    ensures OccursAt(text, Needle(key), i) <==>
      PassesFor(f.value, key) && i + |Needle(key)| == p + |f.gap| + |Shown(f.value)|
  {
    hide OccursAt, At, Escape, Mimics, Body, ValueText;
    BodyParts(text, p, f);
    OccursIff(text, key, i);
    var v, q := p + |f.gap|, p + |f.gap| + |Shown(f.value)|;
    if i < v {
      AtChar(text, p, f.gap, i - p);
      NoMimicBefore(f.value, key);
    } else if i >= q {
      AtChar(text, q, f.trail, i - q);
    } else if f.value.Plain? {
      AtChar(text, v, f.value.text, i - v);
      assert PlainChar(f.value.text[i - v]);
    } else {
      if f.trail != "" {
        AtChar(text, q, f.trail, 0);
      }
      ValueRegion(text, v, f.value.text, key, i);
    }
  }

  lemma NoMimicBefore(value: Value, key: string)
    requires Identifier(key)
    ensures PassesFor(value, key) ==> |Needle(key)| <= |Shown(value)|
  {
    if PassesFor(value, key) {
      MimicFits(value.text, key);
    }
  }

  // ---- The lookup theorem ------------------------------------------------------------------

  /** The members start at `o` and run to the end of the text. */
  predicate EndsWith(text: string, o: nat, fields: seq<Field>) {
    At(text, o, Members(fields)) && o + |Members(fields)| == |text|
  }

  /** Where the first member's parts stand. */
  lemma Split(text: string, o: nat, fields: seq<Field>)
    requires fields != [] && EndsWith(text, o, fields)
    ensures At(text, o, KeyText(fields[0].key)) && At(text, o + |KeyText(fields[0].key)| - 1, ":")
    ensures At(text, o + |KeyText(fields[0].key)|, Body(fields[0]))
    ensures var q := o + |KeyText(fields[0].key)| + |Body(fields[0])|;
      q < |text| && text[q] == (if |fields| > 1 then ',' else '}') &&
      EndsWith(text, if |fields| > 1 then q + 1 else q, fields[1..])
  {
    hide At, Members, KeyText, Body;
    var k, v := KeyText(fields[0].key), Body(fields[0]);
    var sep := if |fields| > 1 then "," else "";
    MembersHead(fields, sep);
    KeyTextEnds(fields[0].key);
    SplitParts(text, o, k, v, sep, Members(fields[1..]));
    ColonEnds(text, o, k);
  }

  lemma SplitParts(text: string, o: nat, k: string, v: string, sep: string, rest: string)
    requires At(text, o, k + (v + (sep + rest))) && o + |k + (v + (sep + rest))| == |text| && |sep + rest| > 0
    ensures At(text, o, k) && At(text, o + |k|, v) && At(text, o + |k| + |v| + |sep|, rest)
    ensures o + |k| + |v| + |sep| + |rest| == |text| && text[o + |k| + |v|] == (sep + rest)[0]
  {
    hide At;
    AtParts(text, o, k, v + (sep + rest));
    AtParts(text, o + |k|, v, sep + rest);
    AtParts(text, o + |k| + |v|, sep, rest);
    AtChar(text, o + |k| + |v|, sep + rest, 0);
  }

  lemma KeyTextEnds(key: string)
    ensures var k := KeyText(key); k != "" && k[|k| - 1] == ':'
  {
  }

  lemma MembersHead(fields: seq<Field>, sep: string)
    requires fields != [] && sep == if |fields| > 1 then "," else ""
    ensures var tail := sep + Members(fields[1..]);
      Members(fields) == KeyText(fields[0].key) + (Body(fields[0]) + tail) &&
      |tail| > 0 && tail[0] == if |fields| > 1 then ',' else '}'
  {
  }

  lemma ColonEnds(text: string, o: nat, k: string)
    requires At(text, o, k) && k != "" && k[|k| - 1] == ':'
    ensures At(text, o + |k| - 1, ":")
  {
    AtChar(text, o, k, |k| - 1);
    assert text[o + |k| - 1..o + |k|] == [text[o + |k| - 1]];
  }

  /** From anywhere behind the last value, the next value read is the next member's. */
  lemma NextValue(text: string, a: nat, o: nat, fields: seq<Field>)
    requires FlatObject(fields) && EndsWith(text, o, fields)
    requires a <= o && forall i :: a <= i < o ==> text[i] != ':'
    ensures ValueAfter(text, a) == if fields == [] then "" else Reading(fields[0].value)
  {
    hide At, Reading, ValueAfter;
    if fields == [] {
      AtChar(text, o, "}", 0);
      NoColon(text, a);
    } else {
      Split(text, o, fields);
      var k := fields[0].key;
      AtSpan(text, o, KeyText(k));
      forall i | a <= i < o + |k| + 2 ensures i < |text| && text[i] != ':' {
        if o <= i {
          AtChar(text, o, KeyText(k), i - o);
          assert 0 < i - o <= |k| ==> IdentifierChar(k[i - o - 1]);
        }
      }
      hide Body;
      ValueReads(text, a, o + |k| + 2, fields[0]);
    }
  }

  lemma NoColon(text: string, a: nat)
    requires forall i :: a <= i < |text| ==> text[i] != ':'
    ensures ValueAfter(text, a) == ""
  {
    forall i: nat ensures OccursAt(text, ":", i) <==> i < |text| && text[i] == ':' {
      OccursChar(text, ':', i);
    }
  }

  lemma LookupSkips(text: string, key: string, a: nat, b: nat)
    requires a <= b <= |text| && Clear(text, Needle(key), a, b)
    ensures Lookup(text, key, a) == Lookup(text, key, b)
  {
    hide Find, OccursAt, ValueAfter, Needle;
    FindSkips(text, Needle(key), a, b);
  }

  lemma LookupHits(text: string, key: string, a: nat, hit: nat)
    requires a <= hit && Clear(text, Needle(key), a, hit) && OccursAt(text, Needle(key), hit)
    ensures Lookup(text, key, a) == ValueAfter(text, hit + |Needle(key)|)
  {
    hide Find, OccursAt, ValueAfter, Needle;
    FindIs(text, Needle(key), a, hit);
  }

  /** getString on the rest of a rendered object, member by member. */
  lemma {:induction false} LookupFrom(text: string, o: nat, fields: seq<Field>, key: string)
    requires FlatObject(fields) && Identifier(key) && EndsWith(text, o, fields)
    ensures Lookup(text, key, o) == Answer(fields, key)
    decreases |fields|
  {
    hide At, EndsWith, OccursAt, Lookup, ValueAfter, Reading, PassesFor, Body, Shown, WellFormed;
    if fields == [] {
      LookupEnd(text, o, key);
    } else {
      Split(text, o, fields);
      var f, n := fields[0], KeyText(fields[0].key);
      var p, q := o + |n|, o + |n| + |Body(fields[0])|;
      WellFormedKey(f);
      forall i | o <= i < p ensures OccursAt(text, Needle(key), i) <==> i == o && f.key == key {
        KeyRegion(text, o, f.key, key, i);
      }
      if f.key == key {
        LookupHits(text, key, o, o);
        ValueReads(text, p - 1, p - 1, f);
      } else {
        LookupSkips(text, key, o, p);
        BodyLookup(text, p, f, key);
        if PassesFor(f.value, key) {
          AfterPassing(text, p, fields);
        } else {
          var r := if |fields| > 1 then q + 1 else q;
          if |fields| > 1 {
            OccursIff(text, key, q);
          }
          LookupSkips(text, key, q, r);
          LookupFrom(text, r, fields[1..], key);
        }
      }
    }
  }

  lemma WellFormedKey(f: Field)
    requires WellFormed(f)
    ensures Identifier(f.key)
  {
  }

  /** The search through one member's value. */
  lemma BodyLookup(text: string, p: nat, f: Field, key: string)
    requires WellFormed(f) && At(text, p, Body(f)) && Identifier(key)
    requires p + |Body(f)| < |text| && !IdentifierChar(text[p + |Body(f)|])
    ensures Lookup(text, key, p) ==
      if PassesFor(f.value, key) then ValueAfter(text, p + |f.gap| + |Shown(f.value)|)
      else Lookup(text, key, p + |Body(f)|)
  {
    hide At, OccursAt, Lookup, ValueAfter, PassesFor, Shown, WellFormed;
    forall i | p <= i < p + |Body(f)|
      ensures OccursAt(text, Needle(key), i) <==>
        PassesFor(f.value, key) && i + |Needle(key)| == p + |f.gap| + |Shown(f.value)|
    {
      BodyRegion(text, p, f, key, i);
    }
    if PassesFor(f.value, key) {
      NoMimicBefore(f.value, key);
      LookupHits(text, key, p, p + |f.gap| + |Shown(f.value)| - |Needle(key)|);
    } else {
      LookupSkips(text, key, p, p + |Body(f)|);
    }
  }

  /** Behind a value that passed for the key, up to the next member's. */
  lemma AfterPassing(text: string, p: nat, fields: seq<Field>)
    requires FlatObject(fields) && fields != [] && At(text, p, Body(fields[0])) && p + |Body(fields[0])| < |text|
    requires text[p + |Body(fields[0])|] == (if |fields| > 1 then ',' else '}')
    requires var q := p + |Body(fields[0])|; EndsWith(text, if |fields| > 1 then q + 1 else q, fields[1..])
    ensures ValueAfter(text, p + |fields[0].gap| + |Shown(fields[0].value)|) ==
      if |fields| > 1 then Reading(fields[1].value) else ""
  {
    hide At, ValueAfter, Reading, Shown, EndsWith, Body;
    var f := fields[0];
    BodyParts(text, p, f);
    var v, q := p + |f.gap| + |Shown(f.value)|, p + |Body(f)|;
    forall i | v <= i < q
      ensures text[i] != ':'
    {
      AtChar(text, v, f.trail, i - v);
    }
    NextValue(text, v, if |fields| > 1 then q + 1 else q, fields[1..]);
  }

  lemma LookupEnd(text: string, o: nat, key: string)
    requires EndsWith(text, o, []) && Identifier(key)
    ensures Lookup(text, key, o) == ""
  {
  }

  /** getString on any rendered flat object of identifier keys, with arbitrary strings and
      bare values, for any identifier. */
  lemma LookupIs(fields: seq<Field>, key: string)
    requires FlatObject(fields) && Identifier(key)
    ensures Lookup(Render(fields), key, 0) == Answer(fields, key)
  {
    var text := Render(fields);
    assert text[1..1 + |Members(fields)|] == Members(fields);
    hide Members, Lookup, OccursAt;
    OccursIff(text, key, 0);
    assert text[0] == '{';
    LookupSkips(text, key, 0, 1);
    LookupFrom(text, 1, fields, key);
  }

  /** Member k is the first with its key, and no earlier value passes for it. */
  predicate Reachable(fields: seq<Field>, k: nat) {
    && k < |fields|
    && forall j :: 0 <= j < k ==> fields[j].key != fields[k].key && !PassesFor(fields[j].value, fields[k].key)
  }

  lemma {:induction false} AnswerReachable(fields: seq<Field>, k: nat)
    requires Reachable(fields, k)
    ensures Answer(fields, fields[k].key) == Reading(fields[k].value)
  {
    if k > 0 {
      assert fields[0].key != fields[k].key && !PassesFor(fields[0].value, fields[k].key);
      AnswerReachable(fields[1..], k - 1);
    }
  }

  /** The lookup theorem: with distinct keys, and no earlier string that equals the key or
      ends with a double quote and the key, the original value comes back: a bare value
      always, a string exactly when it holds no backspace and no form feed. */
  lemma LookupReturnsValue(fields: seq<Field>, k: nat)
    requires FlatObject(fields) && k < |fields|
    requires forall i, j :: 0 <= i < j < |fields| ==> fields[i].key != fields[j].key
    requires forall j :: 0 <= j < k ==> !PassesFor(fields[j].value, fields[k].key)
    ensures Lookup(Render(fields), fields[k].key, 0) == fields[k].value.text <==>
      fields[k].value.Plain? || (BACKSPACE !in fields[k].value.text && FORM_FEED !in fields[k].value.text)
  {
    hide PassesFor, Lookup, Answer, Lossy;
    LookupIs(fields, fields[k].key);
    AnswerReachable(fields, k);
    LossyIff(fields[k].value.text);
  }

  /** The member that is answered for member k's key: k itself, or the one after the
      first earlier value that passes for it. */
  function Source(fields: seq<Field>, k: nat, j: nat): (m: nat)
    requires j <= k < |fields|
    ensures j <= m <= k
    decreases k - j
  {
    if j == k then k else if PassesFor(fields[j].value, fields[k].key) then j + 1 else Source(fields, k, j + 1)
  }

  lemma {:induction false} AnswerSource(fields: seq<Field>, k: nat, j: nat)
    requires j <= k < |fields| && forall i :: j <= i < k ==> fields[i].key != fields[k].key
    ensures Answer(fields[j..], fields[k].key) == Reading(fields[Source(fields, k, j)].value)
    decreases k - j
  {
    hide PassesFor, Reading;
    var rest := fields[j..];
    assert rest[0] == fields[j] && rest[1..] == fields[j + 1..];
    if j < k {
      assert rest[1] == fields[j + 1];
      AnswerSource(fields, k, j + 1);
    }
  }

  /** For every object of distinct keys and every member, which value getString answers
      for its key, and so exactly when that is the member's own. */
  lemma LookupSource(fields: seq<Field>, k: nat)
    requires FlatObject(fields) && k < |fields|
    requires forall i, j :: 0 <= i < j < |fields| ==> fields[i].key != fields[j].key
    ensures Lookup(Render(fields), fields[k].key, 0) == Reading(fields[Source(fields, k, 0)].value)
    ensures Source(fields, k, 0) == k <==>
      forall j :: 0 <= j < k - 1 ==> !PassesFor(fields[j].value, fields[k].key)
  {
    hide PassesFor, Lookup, Answer, Lossy;
    LookupIs(fields, fields[k].key);
    AnswerSource(fields, k, 0);
    assert fields[0..] == fields;
    SourceIsOwn(fields, k, 0);
  }

  lemma {:induction false} SourceIsOwn(fields: seq<Field>, k: nat, j: nat)
    requires j <= k < |fields|
    ensures Source(fields, k, j) == k <==> forall i :: j <= i < k - 1 ==> !PassesFor(fields[i].value, fields[k].key)
    decreases k - j
  {
    hide PassesFor;
    if j < k {
      SourceIsOwn(fields, k, j + 1);
    }
  }

  /** Nothing is found in a text that nowhere holds the quoted key, or holds no colon
      behind it. */
  lemma NothingFound(json: string, key: string)
    ensures !Contains(json, "\"" + key + "\"") ==> Lookup(json, key, 0) == ""
    ensures !Contains(json, ":") ==> Lookup(json, key, 0) == ""
  {
    FindContains(json, Needle(key), 0);
    var hit := Find(json, Needle(key), 0);
    if hit.Some? {
      FindContains(json, ":", hit.value + |Needle(key)|);
    }
  }

  /** A key no member has is not found, unless some value passes for it. */
  lemma {:induction false} AbsentKey(fields: seq<Field>, key: string)
    requires FlatObject(fields) && Identifier(key)
    requires forall f :: f in fields ==> f.key != key && !PassesFor(f.value, key)
    ensures Lookup(Render(fields), key, 0) == ""
  {
    hide Lookup;
    LookupIs(fields, key);
    AnswerAbsent(fields, key);
  }

  lemma {:induction false} AnswerAbsent(fields: seq<Field>, key: string)
    requires forall f :: f in fields ==> f.key != key && !PassesFor(f.value, key)
    ensures Answer(fields, key) == ""
  {
    if fields != [] {
      assert fields[0] in fields;
      AnswerAbsent(fields[1..], key);
    }
  }

  /** A value that equals the wanted key stands in for it: the lookup of "b" in
      {"a":"b","c":"d","b":"e"} answers the value of "c". */
  lemma EarlierValueWins()
    ensures var fields := [Field("a", "", Text("b"), ""), Field("c", "", Text("d"), ""), Field("b", "", Text("e"), "")];
      FlatObject(fields) && Lookup(Render(fields), "b", 0) == "d" != fields[2].value.text
  {
    hide Lookup, Render;
    var fields := [Field("a", "", Text("b"), ""), Field("c", "", Text("d"), ""), Field("b", "", Text("e"), "")];
    LookupIs(fields, "b");
    assert fields[1..][0] == fields[1];
    LossyIff("d");
  }

  /** A bare number, with blanks before and white space after it: the lookup of "id" in
      {"id": 10\n} answers "10". */
  lemma BareNumber()
    ensures Lookup("{\"id\": 10\n}", "id", 0) == "10"
  {
    hide Lookup, Answer;
    var fields := [Field("id", " ", Plain("10"), "\n")];
    assert Members([]) == "}" && fields[1..] == [];
    assert Render(fields) == "{\"id\": 10\n}";
    hide Render;
    LookupIs(fields, "id");
    AnswerReachable(fields, 0);
  }
}
