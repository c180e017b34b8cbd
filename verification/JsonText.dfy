/** Printing and parsing of the Json class, for values without reals. */
module JsonText {
  import opened Decimal
  import opened JsonEscape

  const UINT64_MAX: nat := 0xFFFF_FFFF_FFFF_FFFF

  type UInt64 = n: nat | n <= UINT64_MAX

  /** `TYPE_UNKNOWN` prints and parses as null. */
  datatype Json =
    Null | Integer(n: UInt64) | Str(s: string) | Boolean(b: bool) | Array(items: Items) | Object(members: Members)

  datatype Items = NoItems | Item(head: Json, tail: Items)

  /** A `std::map<std::string, Json>` in iteration order. */
  datatype Members = NoMembers | Member(key: string, value: Json, tail: Members)

  // ----- std::map -----

  /** `operator<` of std::string. */
  predicate Less(a: string, b: string) {
    if |a| == 0 || |b| == 0 then |a| < |b|
    else if a[0] == b[0] then Less(a[1..], b[1..])
    else a[0] < b[0]
  }

  lemma {:induction false} LessTotal(a: string, b: string)
    ensures a == b || Less(a, b) || Less(b, a)
    ensures !(Less(a, b) && Less(b, a)) && !Less(a, a)
  {
    if |a| > 0 && |b| > 0 && a[0] == b[0] {
      LessTotal(a[1..], b[1..]);
      assert a == [a[0]] + a[1..] && b == [b[0]] + b[1..];
    }
    if |a| > 0 {
      LessTotal(a[1..], a[1..]);
    }
  }

  lemma {:induction false} LessTransitive(a: string, b: string, c: string)
    requires Less(a, b) && Less(b, c)
    ensures Less(a, c)
  {
    if |a| > 0 && |c| > 0 && a[0] == b[0] && b[0] == c[0] {
      LessTransitive(a[1..], b[1..], c[1..]);
    }
  }

  predicate Above(ms: Members, k: string) {
    match ms
    case NoMembers => true
    case Member(key, _, tail) => Less(k, key) && Above(tail, k)
  }

  /** Keys ascend strictly, as they do in a std::map. */
  predicate Sorted(ms: Members) {
    match ms
    case NoMembers => true
    case Member(key, _, tail) => Above(tail, key) && Sorted(tail)
  }

  /** `m_object[k] = v`. */
  function Put(ms: Members, k: string, v: Json): Members {
    match ms
    case NoMembers => Member(k, v, NoMembers)
    case Member(key, value, tail) =>
      if k == key then Member(k, v, tail)
      else if Less(k, key) then Member(k, v, ms)
      else Member(key, value, Put(tail, k, v))
  }

  function AsMap(ms: Members): map<string, Json> {
    match ms
    case NoMembers => map[]
    case Member(key, value, tail) => AsMap(tail)[key := value]
  }

  lemma {:induction false} AboveExcludes(ms: Members, k: string, j: string)
    requires Above(ms, k) && (j == k || Less(j, k))
    ensures j !in AsMap(ms) && Above(ms, j)
  {
    if ms.Member? {
      AboveExcludes(ms.tail, k, j);
      if j != k {
        LessTransitive(j, k, ms.key);
      }
      LessTotal(j, ms.key);
    }
  }

  lemma {:induction false} PutAbove(ms: Members, k: string, v: Json, j: string)
    requires Above(ms, j) && Less(j, k)
    ensures Above(Put(ms, k, v), j)
  {
    if ms.Member? {
      PutAbove(ms.tail, k, v, j);
    }
  }

  /** On sorted members `Put` is map update and keeps them sorted. */
  lemma {:induction false} PutIsUpdate(ms: Members, k: string, v: Json)
    requires Sorted(ms)
    ensures Sorted(Put(ms, k, v))
    ensures AsMap(Put(ms, k, v)) == AsMap(ms)[k := v]
  {
    if ms.Member? {
      PutIsUpdate(ms.tail, k, v);
      LessTotal(k, ms.key);
      if Less(k, ms.key) {
        AboveExcludes(ms.tail, ms.key, k);
      } else if k != ms.key {
        PutAbove(ms.tail, k, v, ms.key);
      }
    }
  }

  // ----- printing -----

  function Quoted(s: string): string { "\"" + Escape(s) + "\"" }

  function ToString(v: Json): string
    decreases v, 0
  {
    match v
    case Null => "null"
    case Integer(n) => Show(n)
    case Str(s) => Quoted(s)
    case Boolean(b) => if b then "true" else "false"
    case Array(items) => "[" + ItemsText(items) + "]"
    case Object(members) => "{" + MembersText(members) + "}"
  }

  function ItemsText(xs: Items): string
    decreases xs
  {
    match xs
    case NoItems => ""
    case Item(v, tail) => ToString(v) + (if tail.NoItems? then "" else ",") + ItemsText(tail)
  }

  function MembersText(ms: Members): string
    decreases ms
  {
    match ms
    case NoMembers => ""
    case Member(k, v, tail) =>
      Quoted(k) + ":" + ToString(v) + (if tail.NoMembers? then "" else ",") + MembersText(tail)
  }

  // ----- tokens -----

  datatype Token = Number(text: string) | Text(s: string) | NullToken | BoolToken(b: bool) | Char(c: char) | Outside

  predicate IsSpace(c: char) { c == ' ' || c == '\t' || c == '\r' || c == '\n' }

  predicate DigitOrDot(c: char) { IsDigit(c) || c == '.' }

  function SkipSpace(s: string): (r: string)
    ensures |r| <= |s|
  {
    if |s| > 0 && IsSpace(s[0]) then SkipSpace(s[1..]) else s
  }

  /** How many characters of `s` are digits or dots. */
  function NumberSpan(s: string): (n: nat)
    ensures n <= |s|
  {
    if |s| > 0 && DigitOrDot(s[0]) then 1 + NumberSpan(s[1..]) else 0
  }

  /** How far the string scan runs: to an unescaped quote, to NUL or to the end of the buffer. */
  function Close(s: string, ign: bool): (n: nat)
    ensures n <= |s|
  {
    if |s| == 0 || s[0] == '\0' || (!ign && s[0] == '\"') then 0
    else 1 + Close(s[1..], !ign && s[0] == '\\')
  }

  /** The next token and the text behind it. `Outside` stands for what the model leaves out: a number with a
      dot and a string that the buffer does not close. */
  function TokenOf(s0: string): (r: (Token, string))
    ensures r.0 != Outside && r.0 != Char('\0') ==> |r.1| < |s0|
    ensures |r.1| <= |s0|
  {
    var s := SkipSpace(s0);
    if |s| == 0 then (Char('\0'), "")
    else if s[0] == '-' || IsDigit(s[0]) then
      var n := 1 + NumberSpan(s[1..]);
      (if '.' in s[..n] then Outside else Number(s[..n]), s[n..])
    else if s[0] == '\"' then
      var n := Close(s[1..], false);
      if n < |s| - 1 && s[1 + n] == '\"' then (Text(s[1..1 + n]), s[n + 2..]) else (Outside, "")
    else if "null" <= s then (NullToken, s[4..])
    else if "true" <= s then (BoolToken(true), s[4..])
    else if "false" <= s then (BoolToken(false), s[5..])
    else (Char(s[0]), s[1..])
  }

  /** `strtoull`: a minus sign negates modulo 2^64, an overflow saturates. */
  function StrToULL(text: string): UInt64 {
    if |text| > 0 && text[0] == '-' then
      var n := ReadUnsigned(text[1..], UINT64_MAX + 1);
      if n == 0 then 0 else if n > UINT64_MAX then UINT64_MAX else UINT64_MAX + 1 - n
    else ReadUnsigned(text, UINT64_MAX)
  }

  // ----- parsing -----

  /** What one call of `Parse` gives: a value (the call returns 0), the punctuation it returns, or an exception. */
  datatype Parsed = Value(v: Json, rest: string) | Punct(c: char, rest: string) | Failed

  predicate IsPunct(c: char) { c == ']' || c == '}' || c == ',' || c == ':' }

  function Parse(s: string): (r: Parsed)
    ensures r.Value? || r.Punct? ==> |r.rest| < |s|
    decreases |s|, 0
  {
    var (token, rest) := TokenOf(s);
    match token
    case Number(text) => Value(Integer(StrToULL(text)), rest)
    case Text(t) => Value(Str(t), rest)
    case NullToken => Value(Null, rest)
    case BoolToken(b) => Value(Boolean(b), rest)
    case Outside => Failed
    case Char(c) =>
      if c == '\0' then Failed
      else if c == '[' then ParseItems(rest, NoItems)
      else if c == '{' then ParseMembers(rest, Key, NoMembers)
      else if IsPunct(c) then Punct(c, rest)
      else Failed
  }

  function PushBack(xs: Items, v: Json): Items {
    match xs
    case NoItems => Item(v, NoItems)
    case Item(h, t) => Item(h, PushBack(t, v))
  }

  /** The loop of the array branch, with the elements read so far. */
  function ParseItems(s: string, acc: Items): (r: Parsed)
    ensures !r.Punct? && (r.Value? ==> |r.rest| < |s|)
    decreases |s|, 1
  {
    match Parse(s)
    case Value(v, rest) => ParseItems(rest, PushBack(acc, v))
    case Punct(c, rest) =>
      if c == ']' then Value(Array(acc), rest) else if c == ',' then ParseItems(rest, acc) else Failed
    case Failed => Failed
  }

  /** `state` 0, 1 and 2 of the object branch. */
  datatype Expect = Key | Colon(name: string) | Element(name: string)

  /** The loop of the object branch, with the members read so far. */
  function ParseMembers(s: string, state: Expect, acc: Members): (r: Parsed)
    ensures !r.Punct? && (r.Value? ==> |r.rest| < |s|)
    decreases |s|, 1
  {
    match (state, Parse(s))
    case (_, Failed) => Failed
    case (Key, Punct(c, rest)) =>
      if c == ',' then ParseMembers(rest, Key, acc)
      else if c == '}' then Value(Object(acc), rest)
      else Failed
    case (Key, Value(v, rest)) => if v.Str? then ParseMembers(rest, Colon(v.s), acc) else Failed
    case (Colon(name), Punct(c, rest)) => if c == ':' then ParseMembers(rest, Element(name), acc) else Failed
    case (Colon(_), Value(_, _)) => Failed
    case (Element(_), Punct(_, _)) => Failed
    case (Element(name), Value(v, rest)) => ParseMembers(rest, Key, Put(acc, name, v))
  }

  // ----- what comes back -----

  /** The value with every string and key replaced by its escaped form. */
  function Rebuild(v: Json): Json
    decreases v, 0
  {
    match v
    case Str(s) => Str(Escape(s))
    case Array(items) => Array(RebuildItems(items))
    case Object(members) => Object(RebuildMembers(members, NoMembers))
    case _ => v
  }

  function RebuildItems(xs: Items): Items
    decreases xs
  {
    match xs
    case NoItems => NoItems
    case Item(v, tail) => Item(Rebuild(v), RebuildItems(tail))
  }

  function RebuildMembers(ms: Members, acc: Members): Members
    decreases ms
  {
    match ms
    case NoMembers => acc
    case Member(k, v, tail) => RebuildMembers(tail, Put(acc, Escape(k), Rebuild(v)))
  }

  predicate NoNul(s: string) { '\0' !in s }

  /** A value the class can hold and C strings can carry: sorted members, no NUL in strings and keys. */
  predicate Printable(v: Json)
    decreases v, 0
  {
    match v
    case Str(s) => NoNul(s)
    case Array(items) => PrintableItems(items)
    case Object(members) => Sorted(members) && PrintableMembers(members)
    case _ => true
  }

  predicate PrintableItems(xs: Items)
    decreases xs
  {
    match xs
    case NoItems => true
    case Item(v, tail) => Printable(v) && PrintableItems(tail)
  }

  predicate PrintableMembers(ms: Members)
    decreases ms
  {
    match ms
    case NoMembers => true
    case Member(k, v, tail) => NoNul(k) && Printable(v) && PrintableMembers(tail)
  }

  // ----- tokens of printed text -----

  /** Escaped text holds no unescaped quote: the scan runs over all of it and stops at the closing quote. */
  lemma {:induction false} CloseEscaped(s: string, rest: string)
    requires NoNul(s)
    ensures Close(Escape(s) + "\"" + rest, false) == |Escape(s)|
  {
    if |s| > 0 {
      CloseEscaped(s[1..], rest);
      var t := Escape(s[1..]) + "\"" + rest;
      assert Escape(s) + "\"" + rest == EscapeChar(s[0]) + t;
      assert s[0] in s;
      CloseCode(s[0], t);
    } else {
      assert Escape(s) + "\"" + rest == "\"" + rest;
    }
  }

  lemma CloseCode(c: char, t: string)
    requires c != '\0'
    ensures Close(EscapeChar(c) + t, false) == |EscapeChar(c)| + Close(t, false)
  {
    var code := EscapeChar(c);
    assert (code + t)[1..] == code[1..] + t;
    if |code| == 2 {
      assert ([code[1]] + t)[1..] == t;
    } else {
      assert code[1..] + t == t;
    }
  }

  lemma QuotedToken(s: string, rest: string)
    requires NoNul(s)
    ensures TokenOf(Quoted(s) + rest) == (Text(Escape(s)), rest)
  {
    hide Escape, Close;
    var t := Quoted(s) + rest;
    assert t[1..] == Escape(s) + "\"" + rest;
    CloseEscaped(s, rest);
    var n := |Escape(s)|;
    assert t[1 + n] == '\"' && t[1..1 + n] == Escape(s) && t[n + 2..] == rest;
  }

  predicate NoNumberStart(rest: string) { |rest| > 0 ==> !DigitOrDot(rest[0]) }

  lemma {:induction false} SpanDigits(s: string, rest: string)
    requires AllDigits(s) && NoNumberStart(rest)
    ensures NumberSpan(s + rest) == |s|
  {
    if |s| > 0 {
      assert (s + rest)[0] == s[0] && (s + rest)[1..] == s[1..] + rest;
      SpanDigits(s[1..], rest);
    } else {
      assert s + rest == rest;
    }
  }

  lemma NumberToken(n: nat, rest: string)
    requires NoNumberStart(rest)
    ensures TokenOf(Show(n) + rest) == (Number(Show(n)), rest)
  {
    hide Show, NumberSpan;
    var text := Show(n);
    var t := text + rest;
    assert t[1..] == text[1..] + rest;
    SpanDigits(text[1..], rest);
    assert t[..|text|] == text && t[|text|..] == rest;
    assert IsDigit(text[0]);
  }

  lemma CharToken(c: char, rest: string)
    requires IsPunct(c) || c == '[' || c == '{'
    ensures TokenOf([c] + rest) == (Char(c), rest)
  {
    var t := [c] + rest;
    assert t[1..] == rest && t[0] == c;
  }

  lemma WordTokens(rest: string)
    ensures TokenOf("null" + rest) == (NullToken, rest)
    ensures TokenOf("true" + rest) == (BoolToken(true), rest)
    ensures TokenOf("false" + rest) == (BoolToken(false), rest)
  {
    assert ("null" + rest)[4..] == rest && ("null" + rest)[0] == 'n';
    assert ("true" + rest)[4..] == rest && ("true" + rest)[0] == 't';
    assert ("false" + rest)[5..] == rest && ("false" + rest)[0] == 'f';
  }

  // ----- the round trip -----

  lemma ParseChar(c: char, rest: string)
    requires IsPunct(c) || c == '[' || c == '{'
    ensures IsPunct(c) ==> Parse([c] + rest) == Punct(c, rest)
    ensures c == '[' ==> Parse([c] + rest) == ParseItems(rest, NoItems)
    ensures c == '{' ==> Parse([c] + rest) == ParseMembers(rest, Key, NoMembers)
  {
    hide TokenOf;
    CharToken(c, rest);
  }

  lemma ParseScalar(v: Json, rest: string)
    requires v.Null? || v.Integer? || v.Str? || v.Boolean?
    requires Printable(v) && NoNumberStart(rest)
    ensures Parse(ToString(v) + rest) == Value(Rebuild(v), rest)
  {
    hide TokenOf, Escape, Show;
    match v
    case Null => WordTokens(rest);
    case Boolean(_) => WordTokens(rest);
    case Str(s) => QuotedToken(s, rest);
    case Integer(n) =>
      NumberToken(n, rest);
      assert Show(n) + "" == Show(n);
      ReadOfShow(n, "", UINT64_MAX);
      assert IsDigit(Show(n)[0]);
  }

  function Append(xs: Items, ys: Items): Items {
    match xs
    case NoItems => ys
    case Item(v, tail) => Item(v, Append(tail, ys))
  }

  lemma PushBackAppend(xs: Items, v: Json, ys: Items)
    ensures Append(PushBack(xs, v), ys) == Append(xs, Item(v, ys))
  {
  }

  lemma AppendNone(xs: Items)
    ensures Append(xs, NoItems) == xs
  {
  }

  lemma ItemsStep(s: string, acc: Items)
    ensures var r := Parse(s);
            && (r.Value? ==> ParseItems(s, acc) == ParseItems(r.rest, PushBack(acc, r.v)))
            && (r.Punct? && r.c == ']' ==> ParseItems(s, acc) == Value(Array(acc), r.rest))
            && (r.Punct? && r.c == ',' ==> ParseItems(s, acc) == ParseItems(r.rest, acc))
            && (!r.Value? && !(r.Punct? && (r.c == ']' || r.c == ',')) ==> ParseItems(s, acc) == Failed)
  {
  }

  lemma MembersStep(s: string, state: Expect, acc: Members)
    ensures var r := Parse(s);
      && (state.Key? && r.Punct? && r.c == ',' ==> ParseMembers(s, state, acc) == ParseMembers(r.rest, Key, acc))
      && (state.Key? && r.Punct? && r.c == '}' ==> ParseMembers(s, state, acc) == Value(Object(acc), r.rest))
      && (state.Key? && r.Value? && r.v.Str? ==> ParseMembers(s, state, acc) == ParseMembers(r.rest, Colon(r.v.s), acc))
      && (state.Colon? && r.Punct? && r.c == ':' ==>
            ParseMembers(s, state, acc) == ParseMembers(r.rest, Element(state.name), acc))
      && (state.Element? && r.Value? ==>
            ParseMembers(s, state, acc) == ParseMembers(r.rest, Key, Put(acc, state.name, r.v)))
      && (r.Failed? ==> ParseMembers(s, state, acc) == Failed)
      && (state.Key? && r.Punct? && r.c != ',' && r.c != '}' ==> ParseMembers(s, state, acc) == Failed)
      && (state.Key? && r.Value? && !r.v.Str? ==> ParseMembers(s, state, acc) == Failed)
      && (state.Colon? && !(r.Punct? && r.c == ':') ==> ParseMembers(s, state, acc) == Failed)
      && (state.Element? && r.Punct? ==> ParseMembers(s, state, acc) == Failed)
  {
  }

  /** Parsing printed text consumes exactly what was printed and gives back the value with its strings and keys
      in escaped form, whatever text follows. */
  lemma {:induction false} ParseToString(v: Json, rest: string)
    requires Printable(v) && NoNumberStart(rest)
    ensures Parse(ToString(v) + rest) == Value(Rebuild(v), rest)
    decreases v, 0
  {
    hide Parse, ParseItems, ParseMembers, ItemsText, MembersText, RebuildItems, RebuildMembers;
    match v
    case Array(items) =>
      assert ToString(v) + rest == ['['] + (ItemsText(items) + "]" + rest);
      ParseChar('[', ItemsText(items) + "]" + rest);
      ParseItemsText(items, NoItems, rest);
    case Object(members) =>
      assert ToString(v) + rest == ['{'] + (MembersText(members) + "}" + rest);
      ParseChar('{', MembersText(members) + "}" + rest);
      ParseMembersText(members, NoMembers, rest);
    case _ => ParseScalar(v, rest);
  }

  lemma {:induction false} ParseItemsText(xs: Items, acc: Items, rest: string)
    requires PrintableItems(xs)
    ensures ParseItems(ItemsText(xs) + "]" + rest, acc) == Value(Array(Append(acc, RebuildItems(xs))), rest)
    decreases xs
  {
    hide Parse, ParseItems, ToString, Rebuild, Append, PushBack;
    match xs
    case NoItems =>
      assert ItemsText(xs) + "]" + rest == [']'] + rest;
      ParseChar(']', rest);
      ItemsStep([']'] + rest, acc);
      AppendNone(acc);
    case Item(v, tail) =>
      var comma := if tail.NoItems? then "" else ",";
      var text := ItemsText(tail) + "]" + rest;
      assert ItemsText(xs) + "]" + rest == ToString(v) + (comma + text);
      assert NoNumberStart(comma + text) by {
        if tail.NoItems? {
          assert comma + text == [']'] + rest;
        }
      }
      ParseToString(v, comma + text);
      ItemsStep(ToString(v) + (comma + text), acc);
      var acc' := PushBack(acc, Rebuild(v));
      ItemsComma(comma, text, acc');
      ParseItemsText(tail, acc', rest);
      PushBackAppend(acc, Rebuild(v), RebuildItems(tail));
  }

  lemma ItemsComma(comma: string, text: string, acc: Items)
    requires comma == "" || comma == ","
    ensures ParseItems(comma + text, acc) == ParseItems(text, acc)
  {
    hide Parse, ParseItems;
    if comma == "" {
      assert comma + text == text;
    } else {
      assert comma + text == [','] + text;
      ParseChar(',', text);
      ItemsStep([','] + text, acc);
    }
  }

  lemma {:induction false} ParseMembersText(ms: Members, acc: Members, rest: string)
    requires PrintableMembers(ms)
    ensures ParseMembers(MembersText(ms) + "}" + rest, Key, acc) == Value(Object(RebuildMembers(ms, acc)), rest)
    decreases ms
  {
    hide Parse, ParseMembers, ToString, Rebuild, Put, Quoted;
    match ms
    case NoMembers =>
      assert MembersText(ms) + "}" + rest == ['}'] + rest;
      ParseChar('}', rest);
      MembersStep(['}'] + rest, Key, acc);
    case Member(k, v, tail) =>
      var comma := if tail.NoMembers? then "" else ",";
      var text := MembersText(tail) + "}" + rest;
      assert MembersText(ms) + "}" + rest == Quoted(k) + (":" + (ToString(v) + (comma + text)));
      assert NoNumberStart(comma + text) by {
        if tail.NoMembers? {
          assert comma + text == ['}'] + rest;
        }
      }
      ParseToString(v, comma + text);
      OneMember(k, v, comma + text, acc);
      MembersComma(comma, text, Put(acc, Escape(k), Rebuild(v)));
      ParseMembersText(tail, Put(acc, Escape(k), Rebuild(v)), rest);
  }

  lemma OneMember(k: string, v: Json, more: string, acc: Members)
    requires NoNul(k) && Parse(ToString(v) + more) == Value(Rebuild(v), more)
    ensures ParseMembers(Quoted(k) + (":" + (ToString(v) + more)), Key, acc) ==
            ParseMembers(more, Key, Put(acc, Escape(k), Rebuild(v)))
  {
    hide Parse, ParseMembers, ToString, Put, Escape, Quoted;
    var element := ToString(v) + more;
    assert Quoted(k) == ToString(Str(k)) && Rebuild(Str(k)) == Str(Escape(k)) by { StrDefs(k); }
    ParseScalar(Str(k), ":" + element);
    MembersStep(Quoted(k) + (":" + element), Key, acc);
    assert ":" + element == [':'] + element;
    ParseChar(':', element);
    MembersStep([':'] + element, Colon(Escape(k)), acc);
    MembersStep(element, Element(Escape(k)), acc);
  }

  lemma StrDefs(k: string)
    ensures Quoted(k) == ToString(Str(k)) && Rebuild(Str(k)) == Str(Escape(k))
  {
  }

  lemma MembersComma(comma: string, text: string, acc: Members)
    requires comma == "" || comma == ","
    ensures ParseMembers(comma + text, Key, acc) == ParseMembers(text, Key, acc)
  {
    hide Parse, ParseMembers;
    if comma == "" {
      assert comma + text == text;
    } else {
      assert comma + text == [','] + text;
      ParseChar(',', text);
      MembersStep([','] + text, Key, acc);
    }
  }

  // ----- what the rebuilt value is -----

  ghost predicate FreshFor(ms: Members, acc: Members) { forall k :: k in AsMap(ms) ==> Escape(k) !in AsMap(acc) }

  ghost predicate Carries(r: map<string, Json>, ms: Members) {
    forall k :: k in AsMap(ms) ==> Escape(k) in r && r[Escape(k)] == Rebuild(AsMap(ms)[k])
  }

  lemma FreshTail(ms: Members, acc: Members, v: Json)
    requires ms.Member? && Sorted(ms) && Sorted(acc) && FreshFor(ms, acc)
    ensures FreshFor(ms.tail, Put(acc, Escape(ms.key), v))
    ensures ms.key !in AsMap(ms.tail)
  {
    hide Escape, Put;
    AboveExcludes(ms.tail, ms.key, ms.key);
    PutIsUpdate(acc, Escape(ms.key), v);
    forall k | k in AsMap(ms.tail) ensures Escape(k) !in AsMap(Put(acc, Escape(ms.key), v)) {
      assert k in AsMap(ms);
      if Escape(k) == Escape(ms.key) {
        EscapeInjective(k, ms.key);
      }
    }
  }

  ghost predicate Extends(r: map<string, Json>, acc: Members) {
    forall k :: k in AsMap(acc) ==> k in r && r[k] == AsMap(acc)[k]
  }

  lemma CarriesHead(r: map<string, Json>, ms: Members, acc: Members)
    requires ms.Member? && Carries(r, ms.tail) && ms.key !in AsMap(ms.tail) && Sorted(acc)
    requires Escape(ms.key) !in AsMap(acc)
    requires Extends(r, Put(acc, Escape(ms.key), Rebuild(ms.value)))
    ensures Carries(r, ms) && Extends(r, acc)
  {
    hide Escape, Put, Rebuild, Sorted;
    PutIsUpdate(acc, Escape(ms.key), Rebuild(ms.value));
    assert Escape(ms.key) in AsMap(Put(acc, Escape(ms.key), Rebuild(ms.value)));
  }

  /** Distinct keys stay distinct: the rebuilt members hold each member once, under its escaped key, and no other. */
  lemma {:induction false} RebuildMembersMap(ms: Members, acc: Members)
    requires Sorted(ms) && Sorted(acc) && FreshFor(ms, acc)
    ensures var r := AsMap(RebuildMembers(ms, acc));
            Carries(r, ms) && Extends(r, acc) && |r| == |AsMap(acc)| + |AsMap(ms)|
    ensures Sorted(RebuildMembers(ms, acc))
    decreases ms
  {
    if ms.Member? {
      hide Escape, Put, Rebuild, Carries, Extends;
      var acc' := Put(acc, Escape(ms.key), Rebuild(ms.value));
      PutIsUpdate(acc, Escape(ms.key), Rebuild(ms.value));
      FreshTail(ms, acc, Rebuild(ms.value));
      RebuildMembersMap(ms.tail, acc');
      assert ms.key in AsMap(ms);
      assert Escape(ms.key) !in AsMap(acc);
      CarriesHead(AsMap(RebuildMembers(ms, acc)), ms, acc);
    }
  }

  // Nothing to escape anywhere in the value.
  predicate PlainJson(v: Json)
    decreases v, 0
  {
    match v
    case Str(s) => Plain(s)
    case Array(items) => PlainItems(items)
    case Object(members) => PlainMembers(members)
    case _ => true
  }

  predicate PlainItems(xs: Items)
    decreases xs
  {
    match xs
    case NoItems => true
    case Item(v, tail) => PlainJson(v) && PlainItems(tail)
  }

  predicate PlainMembers(ms: Members)
    decreases ms
  {
    match ms
    case NoMembers => true
    case Member(k, v, tail) => Plain(k) && PlainJson(v) && PlainMembers(tail)
  }

  // Total length of the strings and keys of a value; escaping can only add to it.
  function Chars(v: Json): nat
    decreases v, 0
  {
    match v
    case Str(s) => |s|
    case Array(items) => ItemsChars(items)
    case Object(members) => MembersChars(members)
    case _ => 0
  }

  function ItemsChars(xs: Items): nat
    decreases xs
  {
    match xs
    case NoItems => 0
    case Item(v, tail) => Chars(v) + ItemsChars(tail)
  }

  function MembersChars(ms: Members): nat
    decreases ms
  {
    match ms
    case NoMembers => 0
    case Member(k, v, tail) => |k| + Chars(v) + MembersChars(tail)
  }

  lemma {:induction false} PutChars(ms: Members, k: string, v: Json)
    requires k !in AsMap(ms)
    ensures MembersChars(Put(ms, k, v)) == MembersChars(ms) + |k| + Chars(v)
  {
    hide Less, Chars;
    if ms.Member? && !Less(k, ms.key) {
      PutChars(ms.tail, k, v);
    }
  }

  lemma {:induction false} RebuildGrows(v: Json)
    requires Printable(v)
    ensures Chars(Rebuild(v)) >= Chars(v)
    ensures !PlainJson(v) ==> Chars(Rebuild(v)) > Chars(v)
    decreases v, 0
  {
    hide RebuildItems, RebuildMembers, Escape, Plain;
    match v
    case Str(s) => EscapeFixpoint(s);
    case Array(items) => RebuildItemsGrows(items);
    case Object(members) => RebuildMembersGrows(members, NoMembers);
    case _ =>
  }

  lemma {:induction false} RebuildItemsGrows(xs: Items)
    requires PrintableItems(xs)
    ensures ItemsChars(RebuildItems(xs)) >= ItemsChars(xs)
    ensures !PlainItems(xs) ==> ItemsChars(RebuildItems(xs)) > ItemsChars(xs)
    decreases xs
  {
    if xs.Item? {
      hide Rebuild, Chars, Printable, PlainJson;
      RebuildGrows(xs.head);
      RebuildItemsGrows(xs.tail);
    }
  }

  lemma {:induction false} RebuildMembersGrows(ms: Members, acc: Members)
    requires Sorted(ms) && PrintableMembers(ms) && Sorted(acc) && FreshFor(ms, acc)
    ensures MembersChars(RebuildMembers(ms, acc)) >= MembersChars(acc) + MembersChars(ms)
    ensures !PlainMembers(ms) ==> MembersChars(RebuildMembers(ms, acc)) > MembersChars(acc) + MembersChars(ms)
    decreases ms
  {
    if ms.Member? {
      hide Rebuild, Chars, Printable, PlainJson, Escape, Put, Plain;
      RebuildGrows(ms.value);
      EscapeFixpoint(ms.key);
      FreshTail(ms, acc, Rebuild(ms.value));
      PutIsUpdate(acc, Escape(ms.key), Rebuild(ms.value));
      assert ms.key in AsMap(ms);
      PutChars(acc, Escape(ms.key), Rebuild(ms.value));
      RebuildMembersGrows(ms.tail, Put(acc, Escape(ms.key), Rebuild(ms.value)));
    }
  }

  function Join(a: Members, b: Members): Members {
    match a
    case NoMembers => b
    case Member(k, v, tail) => Member(k, v, Join(tail, b))
  }

  predicate Below(ms: Members, k: string) {
    match ms
    case NoMembers => true
    case Member(key, _, tail) => Less(key, k) && Below(tail, k)
  }

  lemma {:induction false} PutLast(acc: Members, k: string, v: Json, ms: Members)
    requires Below(acc, k)
    ensures Join(Put(acc, k, v), ms) == Join(acc, Member(k, v, ms))
    ensures forall j :: Less(k, j) && Below(acc, j) ==> Below(Put(acc, k, v), j)
  {
    if acc.Member? {
      LessTotal(k, acc.key);
      PutLast(acc.tail, k, v, ms);
    }
  }

  lemma JoinNone(acc: Members)
    ensures Join(acc, NoMembers) == acc
  {
  }

  lemma {:induction false} RebuildPlain(v: Json)
    requires Printable(v) && PlainJson(v)
    ensures Rebuild(v) == v
    decreases v, 0
  {
    hide RebuildItems, RebuildMembers, Escape, Plain;
    match v
    case Str(s) => EscapeFixpoint(s);
    case Array(items) => RebuildItemsPlain(items);
    case Object(members) => RebuildMembersPlain(members, NoMembers);
    case _ =>
  }

  lemma {:induction false} RebuildItemsPlain(xs: Items)
    requires PrintableItems(xs) && PlainItems(xs)
    ensures RebuildItems(xs) == xs
    decreases xs
  {
    if xs.Item? {
      hide Rebuild, Printable, PlainJson;
      RebuildPlain(xs.head);
      RebuildItemsPlain(xs.tail);
    }
  }

  lemma {:induction false} RebuildMembersPlain(ms: Members, acc: Members)
    requires Sorted(ms) && PrintableMembers(ms) && PlainMembers(ms)
    requires ms.Member? ==> Below(acc, ms.key)
    ensures RebuildMembers(ms, acc) == Join(acc, ms)
    decreases ms
  {
    if ms.Member? {
      hide Rebuild, Printable, PlainJson, Escape, Plain, Put, Less;
      RebuildPlain(ms.value);
      EscapeFixpoint(ms.key);
      PutLast(acc, ms.key, ms.value, ms.tail);
      if ms.tail.Member? {
        BelowTransitive(acc, ms.key, ms.tail.key);
      }
      RebuildMembersPlain(ms.tail, Put(acc, ms.key, ms.value));
    } else {
      JoinNone(acc);
    }
  }

  lemma {:induction false} BelowTransitive(acc: Members, j: string, k: string)
    requires Below(acc, j) && Less(j, k)
    ensures Below(acc, k)
  {
    if acc.Member? {
      LessTransitive(acc.key, j, k);
      BelowTransitive(acc.tail, j, k);
    }
  }

  /** A value survives printing and parsing exactly when no string or key in it holds a character to escape:
      `Token` never decodes a string that is properly closed. */
  lemma RoundTripExact(v: Json, rest: string)
    requires Printable(v) && NoNumberStart(rest)
    ensures Parse(ToString(v) + rest) == Value(v, rest) <==> PlainJson(v)
  {
    hide Parse, ToString, Rebuild, Printable, PlainJson, Chars;
    ParseToString(v, rest);
    if PlainJson(v) {
      RebuildPlain(v);
    } else {
      RebuildGrows(v);
    }
  }

  /** The smallest value that comes back changed. */
  lemma RoundTripFails()
    ensures Parse(ToString(Str("\"")) + "") != Value(Str("\""), "")
  {
    hide Parse, ToString;
    assert NeedsEscape("\""[0]);
    assert !PlainJson(Str("\""));
    RoundTripExact(Str("\""), "");
  }

  // ----- the parser as it is written -----

  /** `Token`: the index moves over the buffer, whose end reads as NUL. */
  method ReadToken(buffer: string, start: nat) returns (token: Token, index: nat)
    requires start <= |buffer|
    ensures start <= index <= |buffer|
    ensures TokenOf(buffer[start..]) == (token, buffer[index..])
  {
    hide SkipSpace, NumberSpan, Close;
    index := start;
    while index < |buffer| && IsSpace(buffer[index])
      invariant start <= index <= |buffer|
      invariant SkipSpace(buffer[start..]) == SkipSpace(buffer[index..])
    {
      SkipStep(buffer, index);
      index := index + 1;
    }
    SkipStep(buffer, index);
    var x := index;
    ghost var s := buffer[x..];
    if index == |buffer| {
      token := Char('\0');
    } else if buffer[index] == '-' || IsDigit(buffer[index]) {
      token, index := ReadNumber(buffer, index);
    } else if buffer[index] == '\"' {
      assert s[1..] == buffer[x + 1..];
      ghost var n := Close(s[1..], false);
      assert x + 1 + n < |buffer| ==> s[1..1 + n] == buffer[x + 1..x + 1 + n] && s[1 + n] == buffer[x + 1 + n];
      token, index := ReadQuoted(buffer, index);
    } else if "null" <= buffer[index..] {
      token := NullToken;
      index := index + 4;
    } else if "true" <= buffer[index..] {
      token := BoolToken(true);
      index := index + 4;
    } else if "false" <= buffer[index..] {
      token := BoolToken(false);
      index := index + 5;
    } else {
      token := Char(buffer[index]);
      index := index + 1;
    }
    assert buffer[index..] == s[index - x..];
  }

  lemma SkipStep(buffer: string, i: nat)
    requires i <= |buffer|
    ensures SkipSpace(buffer[i..]) ==
            if i < |buffer| && IsSpace(buffer[i]) then SkipSpace(buffer[i + 1..]) else buffer[i..]
  {
    if i < |buffer| {
      assert buffer[i..][1..] == buffer[i + 1..];
    }
  }

  lemma SpanStep(buffer: string, i: nat)
    requires i <= |buffer|
    ensures NumberSpan(buffer[i..]) ==
            if i < |buffer| && DigitOrDot(buffer[i]) then 1 + NumberSpan(buffer[i + 1..]) else 0
  {
    if i < |buffer| {
      assert buffer[i..][1..] == buffer[i + 1..];
    }
  }

  method ReadNumber(buffer: string, x: nat) returns (token: Token, index: nat)
    requires x < |buffer|
    ensures var s := buffer[x..]; var n := 1 + NumberSpan(s[1..]);
            index == x + n && token == if '.' in s[..n] then Outside else Number(s[..n])
  {
    hide NumberSpan;
    var dot := false;
    index := x;
    if buffer[index] == '-' {
      index := index + 1;
    } else {
      SpanStep(buffer, index);
      dot := buffer[index] == '.';
      index := index + 1;
    }
    assert buffer[x..][1..] == buffer[x + 1..];
    while index < |buffer| && DigitOrDot(buffer[index])
      invariant x < index <= |buffer|
      invariant 1 + NumberSpan(buffer[x + 1..]) == index - x + NumberSpan(buffer[index..])
      invariant dot <==> '.' in buffer[x..index]
    {
      SpanStep(buffer, index);
      if buffer[index] == '.' {
        dot := true;
      }
      assert buffer[x..index + 1] == buffer[x..index] + [buffer[index]];
      index := index + 1;
    }
    SpanStep(buffer, index);
    assert buffer[x..][..index - x] == buffer[x..index];
    token := if dot then Outside else Number(buffer[x..index]);
  }

  lemma CloseStep(buffer: string, i: nat, ign: bool)
    requires i <= |buffer|
    ensures Close(buffer[i..], ign) ==
            if i < |buffer| && buffer[i] != '\0' && (ign || buffer[i] != '\"')
            then 1 + Close(buffer[i + 1..], !ign && buffer[i] == '\\') else 0
  {
    if i < |buffer| {
      assert buffer[i..][1..] == buffer[i + 1..];
    }
  }

  method ReadQuoted(buffer: string, at: nat) returns (token: Token, index: nat)
    requires at < |buffer|
    ensures at <= index <= |buffer|
    ensures var n := Close(buffer[at + 1..], false);
            if at + 1 + n < |buffer| && buffer[at + 1 + n] == '\"'
            then token == Text(buffer[at + 1..at + 1 + n]) && index == at + n + 2
            else token == Outside && index == |buffer|
  {
    hide Close;
    var ign := false;
    index := at + 1;
    var x := index;
    while index < |buffer| && buffer[index] != '\0' && (ign || buffer[index] != '\"')
      invariant x <= index <= |buffer|
      invariant Close(buffer[x..], false) == index - x + Close(buffer[index..], ign)
    {
      CloseStep(buffer, index, ign);
      if ign {
        ign := false;
      } else if buffer[index] == '\\' {
        ign := true;
      }
      index := index + 1;
    }
    CloseStep(buffer, index, ign);
    if index < |buffer| && buffer[index] == '\"' {
      token := Text(buffer[x..index]);
      index := index + 1;
    } else {
      token, index := Outside, |buffer|;
    }
  }

  /** What a call of `Parse` leaves: the value it filled (and it returns 0), the mark it returns, or an exception. */
  datatype Result = Filled(v: Json) | Mark(c: char) | Threw

  predicate Tells(r: Result, rest: string, p: Parsed) {
    match r
    case Filled(v) => p == Value(v, rest)
    case Mark(c) => p == Punct(c, rest)
    case Threw => p == Failed
  }

  /** `Parse`, with its array loop and its object loop. */
  method ParseAt(buffer: string, start: nat) returns (r: Result, index: nat)
    requires start <= |buffer|
    ensures start <= index <= |buffer| && Tells(r, buffer[index..], Parse(buffer[start..]))
    ensures !r.Threw? ==> start < index
    decreases |buffer| - start, 1
  {
    hide ParseItems, ParseMembers, TokenOf;
    ParseStep(buffer[start..]);
    var token;
    token, index := ReadToken(buffer, start);
    match token
    case Number(text) => r := Filled(Integer(StrToULL(text)));
    case Text(t) => r := Filled(Str(t));
    case NullToken => r := Filled(Null);
    case BoolToken(b) => r := Filled(Boolean(b));
    case Outside => r := Threw;
    case Char(c) =>
      if c == '\0' {
        r := Threw;
      } else if c == '[' {
        assert index > start;
        r, index := ParseArrayLoop(buffer, index);
      } else if c == '{' {
        assert index > start;
        r, index := ParseObjectLoop(buffer, index);
      } else if IsPunct(c) {
        r := Mark(c);
      } else {
        r := Threw;
      }
  }

  lemma ParseStep(s: string)
    ensures TokenOf(s).0 != Outside && TokenOf(s).0 != Char('\0') ==> |TokenOf(s).1| < |s|
  {
  }

  method ParseArrayLoop(buffer: string, start: nat) returns (r: Result, index: nat)
    requires start <= |buffer|
    ensures start <= index <= |buffer| && Tells(r, buffer[index..], ParseItems(buffer[start..], NoItems))
    decreases |buffer| - start, 2
  {
    hide Parse, ParseItems;
    var elements := NoItems;
    index := start;
    while true
      invariant start <= index <= |buffer|
      invariant ParseItems(buffer[start..], NoItems) == ParseItems(buffer[index..], elements)
      decreases |buffer| - index
    {
      ItemsStep(buffer[index..], elements);
      var res;
      res, index := ParseAt(buffer, index);
      if res.Filled? {
        elements := PushBack(elements, res.v);
      } else if res.Mark? && res.c == ']' {
        return Filled(Array(elements)), index;
      } else if res.Mark? && res.c == ',' {
      } else {
        return Threw, index;
      }
    }
  }

  method ParseObjectLoop(buffer: string, start: nat) returns (r: Result, index: nat)
    requires start <= |buffer|
    ensures start <= index <= |buffer| && Tells(r, buffer[index..], ParseMembers(buffer[start..], Key, NoMembers))
    decreases |buffer| - start, 2
  {
    hide Parse, ParseMembers, Put;
    var members, state := NoMembers, Key;
    index := start;
    while true
      invariant start <= index <= |buffer|
      invariant ParseMembers(buffer[start..], Key, NoMembers) == ParseMembers(buffer[index..], state, members)
      decreases |buffer| - index
    {
      MembersStep(buffer[index..], state, members);
      var res;
      res, index := ParseAt(buffer, index);
      if res.Threw? {
        return Threw, index;
      }
      match state {
        case Key =>
          if res == Mark(',') {
          } else if res == Mark('}') {
            return Filled(Object(members)), index;
          } else if res.Mark? || !res.v.Str? {
            return Threw, index;
          } else {
            state := Colon(res.v.s);
          }
        case Colon(name) =>
          if res != Mark(':') {
            return Threw, index;
          }
          state := Element(name);
        case Element(name) =>
          if res.Mark? {
            return Threw, index;
          }
          members := Put(members, name, res.v);
          state := Key;
      }
    }
  }

  // ----- other text -----

  lemma {:induction false} SpaceSkipped(spaces: string, s: string)
    requires forall i :: 0 <= i < |spaces| ==>
      spaces[i] == ' ' || spaces[i] == '\t' || spaces[i] == '\r' || spaces[i] == '\n'
    ensures SkipSpace(spaces + s) == SkipSpace(s)
  {
    if |spaces| == 0 {
      assert spaces + s == s;
    } else {
      assert (spaces + s)[0] == spaces[0] && (spaces + s)[1..] == spaces[1..] + s;
      SpaceSkipped(spaces[1..], s);
    }
  }

  /** Blanks, tabs, carriage returns and line feeds may stand before every token: of a value, of an item and of a
      member. */
  lemma SpacesAllowed(spaces: string, s: string, items: Items, state: Expect, members: Members)
    requires forall i :: 0 <= i < |spaces| ==>
      spaces[i] == ' ' || spaces[i] == '\t' || spaces[i] == '\r' || spaces[i] == '\n'
    ensures Parse(spaces + s) == Parse(s)
    ensures ParseItems(spaces + s, items) == ParseItems(s, items)
    ensures ParseMembers(spaces + s, state, members) == ParseMembers(s, state, members)
  {
    assert TokenOf(spaces + s) == TokenOf(s) by { SpaceSkipped(spaces, s); }
    hide TokenOf;
    assert Parse(spaces + s) == Parse(s);
    hide Parse;
    ItemsStep(spaces + s, items);
    ItemsStep(s, items);
    MembersStep(spaces + s, state, members);
    MembersStep(s, state, members);
  }

  /** Numbers that do not fit: the source reads a negative number modulo 2^64 and caps a large one. */
  lemma OtherNumbers(n: nat)
    ensures 0 < n <= UINT64_MAX ==> StrToULL("-" + Show(n)) == UINT64_MAX + 1 - n
    ensures n > UINT64_MAX ==> StrToULL(Show(n)) == UINT64_MAX
    ensures forall rest :: NoNumberStart(rest) ==> TokenOf("-" + Show(n) + rest) == (Number("-" + Show(n)), rest)
  {
    forall rest | NoNumberStart(rest) ensures TokenOf("-" + Show(n) + rest) == (Number("-" + Show(n)), rest) {
      NegativeToken(n, rest);
    }
    hide Show;
    assert ("-" + Show(n))[1..] == Show(n) && IsDigit(Show(n)[0]);
    ReadOfShow(n, "", n);
    assert Show(n) + "" == Show(n) && Show(n)[..|Show(n)|] == Show(n);
    ValueOfShow(n);
  }

  lemma NegativeToken(n: nat, rest: string)
    requires NoNumberStart(rest)
    ensures TokenOf("-" + Show(n) + rest) == (Number("-" + Show(n)), rest)
  {
    hide Show, NumberSpan;
    var text := "-" + Show(n);
    var t := text + rest;
    assert t[0] == '-' && t[1..] == Show(n) + rest;
    SpanDigits(Show(n), rest);
    assert t[..|text|] == text && t[|text|..] == rest;
  }

  /** An object with an array, as it is printed. */
  lemma PrintedExample()
    ensures ToString(Object(Member("a", Array(Item(Boolean(true), Item(Null, NoItems))),
                            Member("b", Str("x"), NoMembers)))) == "{\"a\":[true,null],\"b\":\"x\"}"
  {
    EscapedForms();
    hide Escape;
    var items := Item(Boolean(true), Item(Null, NoItems));
    assert ItemsText(Item(Null, NoItems)) == "null";
    assert ItemsText(items) == "true,null";
    assert ToString(Array(items)) == "[true,null]";
    assert MembersText(Member("b", Str("x"), NoMembers)) == "\"b\":\"x\"";
  }
}
