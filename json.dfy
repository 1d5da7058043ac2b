/**
 * The catalog index `entries.json`: `JSON.stringify(entries, null, 2) + '\n'`
 * as the script writes it (script.js, `saveToGitHub` and `downloadEntry`),
 * and `JSON.parse` of such a text. Each entry is an object with the seven
 * string members in the order the entry is built; strings are escaped as
 * `JSON.stringify` escapes them.
 */
module IndexJson {
  import opened Text
  import opened Entries

  datatype Parsed<T> = Parsed(value: T, rest: string)

  // ---------------------------------------------------------------- strings

  function HexDigit(v: int): (c: char)
    requires 0 <= v < 16
  {
    if v < 10 then ('0' as int + v) as char else ('a' as int + v - 10) as char
  }

  function HexValue(c: char): Option<int>
  {
    if '0' <= c <= '9' then Some(c as int - '0' as int)
    else if 'a' <= c <= 'f' then Some(c as int - 'a' as int + 10)
    else if 'A' <= c <= 'F' then Some(c as int - 'A' as int + 10)
    else None
  }

  lemma HexValueOfDigit(v: int)
    requires 0 <= v < 16
    ensures HexValue(HexDigit(v)) == Some(v)
  {
  }

  /** How `JSON.stringify` writes one character inside a string literal. */
  function EscapeJsonChar(c: char): (r: string)
    ensures r != []
  {
    if c == '"' then "\\\""
    else if c == '\\' then "\\\\"
    else if c == '\U{0008}' then "\\b"
    else if c == '\U{000C}' then "\\f"
    else if c == '\n' then "\\n"
    else if c == '\r' then "\\r"
    else if c == '\t' then "\\t"
    else if c < ' ' then "\\u00" + [HexDigit(c as int / 16), HexDigit(c as int % 16)]
    else [c]
  }

  function EscapeJson(s: string): string
  {
    if s == [] then [] else EscapeJsonChar(s[0]) + EscapeJson(s[1..])
  }

  /** A string literal. */
  function Quoted(s: string): string
  {
    "\"" + EscapeJson(s) + "\""
  }

  /** The character an escape letter stands for (not `u`). */
  function ShortEscape(c: char): Option<char>
  {
    if c == '"' then Some('"')
    else if c == '\\' then Some('\\')
    else if c == '/' then Some('/')
    else if c == 'b' then Some('\U{0008}')
    else if c == 'f' then Some('\U{000C}')
    else if c == 'n' then Some('\n')
    else if c == 'r' then Some('\r')
    else if c == 't' then Some('\t')
    else None
  }

  /** The character of a `\uXXXX` escape, whose four hex digits start `s`.
      A surrogate half, which a `char` cannot hold, is refused. */
  function UnicodeEscape(s: string): Option<char>
    requires |s| >= 4
  {
    match (HexValue(s[0]), HexValue(s[1]), HexValue(s[2]), HexValue(s[3]))
    case (Some(h0), Some(h1), Some(h2), Some(h3)) =>
      var cp := ((h0 * 16 + h1) * 16 + h2) * 16 + h3;
      if 0xD800 <= cp <= 0xDFFF then None else Some(cp as char)
    case _ => None
  }

  /** The body of a string literal up to and including its closing quote. */
  function ParseStringBody(s: string): (r: Option<Parsed<string>>)
    ensures r.Some? ==> |r.value.rest| < |s|
    decreases |s|
  {
    if s == [] then None
    else if s[0] == '"' then Some(Parsed([], s[1..]))
    else if s[0] < ' ' then None
    else
      var step :=
        if s[0] != '\\' then Some(Parsed(s[0], s[1..]))
        else if |s| < 2 then None
        else if s[1] == 'u' then
          if |s| < 6 then None
          else match UnicodeEscape(s[2..6])
            case None => None
            case Some(c) => Some(Parsed(c, s[6..]))
        else match ShortEscape(s[1])
          case None => None
          case Some(c) => Some(Parsed(c, s[2..]));
      match step
      case None => None
      case Some(p) =>
        match ParseStringBody(p.rest)
        case None => None
        case Some(q) => Some(Parsed([p.value] + q.value, q.rest))
  }

  /** JSON white space: space, tab, line feed, carriage return. */
  predicate IsJsonSpace(c: char)
  {
    c == ' ' || c == '\t' || c == '\n' || c == '\r'
  }

  function SkipWs(s: string): (r: string)
    ensures |r| <= |s| && r == s[|s| - |r|..]
    ensures r == [] || !IsJsonSpace(r[0])
  {
    if s != [] && IsJsonSpace(s[0]) then SkipWs(s[1..]) else s
  }

  /** A string literal after optional white space. */
  function ParseString(s: string): (r: Option<Parsed<string>>)
    ensures r.Some? ==> |r.value.rest| < |s|
  {
    var t := SkipWs(s);
    if t != [] && t[0] == '"' then ParseStringBody(t[1..]) else None
  }

  /** The character `c` after optional white space. */
  function Expect(s: string, c: char): (r: Option<string>)
    ensures r.Some? ==> |r.value| < |s|
  {
    var t := SkipWs(s);
    if t != [] && t[0] == c then Some(t[1..]) else None
  }

  // ---------------------------------------------------------------- entries

  const Keys: seq<string> := ["slug", "title", "imageUrl", "platform", "date", "tags", "prompt"]

  function Fields(e: Entry): (vs: seq<string>)
    ensures |vs| == 7
  {
    [e.slug, e.title, e.imageUrl, e.platform, e.date, e.tags, e.prompt]
  }

  function FromFields(vs: seq<string>): Entry
    requires |vs| == 7
  {
    Entry(vs[0], vs[1], vs[2], vs[3], vs[4], vs[5], vs[6])
  }

  /** A key is a plain ASCII word, which `JSON.stringify` writes without
      escapes. */
  predicate PlainKey(k: string)
  {
    forall i :: 0 <= i < |k| ==> 'a' <= k[i] <= 'z' || 'A' <= k[i] <= 'Z'
  }

  predicate PlainKeys(keys: seq<string>)
  {
    forall i :: 0 <= i < |keys| ==> PlainKey(keys[i])
  }

  function KeyText(key: string): string
  {
    "\"" + key + "\""
  }

  /** One member line of an entry object, at the indentation of depth two. */
  function Member(key: string, value: string): string
  {
    "    " + KeyText(key) + ": " + Quoted(value)
  }

  /** The member lines, separated by a comma and a line break. */
  function Members(ps: seq<(string, string)>): string
    requires ps != []
    decreases |ps|
  {
    if |ps| == 1 then Member(ps[0].0, ps[0].1)
    else Member(ps[0].0, ps[0].1) + ",\n" + Members(ps[1..])
  }

  /** The members of an entry: its fields under their keys, in order. */
  function Pairs(e: Entry): (ps: seq<(string, string)>)
    ensures |ps| == 7
  {
    [("slug", e.slug), ("title", e.title), ("imageUrl", e.imageUrl), ("platform", e.platform),
     ("date", e.date), ("tags", e.tags), ("prompt", e.prompt)]
  }

  function KeysOf(ps: seq<(string, string)>): seq<string>
  {
    seq(|ps|, i requires 0 <= i < |ps| => ps[i].0)
  }

  function ValuesOf(ps: seq<(string, string)>): seq<string>
  {
    seq(|ps|, i requires 0 <= i < |ps| => ps[i].1)
  }

  /** An entry as an element of the index array, at depth one. */
  function ObjectText(e: Entry): string
  {
    "  {\n" + Members(Pairs(e)) + "\n  }"
  }

  function Items(xs: seq<Entry>): string
    requires xs != []
    decreases |xs|
  {
    if |xs| == 1 then ObjectText(xs[0]) else ObjectText(xs[0]) + ",\n" + Items(xs[1..])
  }

  /** `JSON.stringify(xs, null, 2)` */
  function Serialize(xs: seq<Entry>): string
  {
    if xs == [] then "[]" else "[\n" + Items(xs) + "\n]"
  }

  /** The text of the index file. */
  function IndexText(xs: seq<Entry>): string
  {
    Serialize(xs) + "\n"
  }

  /** One member: the key `key`, a colon, a string value. */
  function ParseMember(s: string, key: string): (r: Option<Parsed<string>>)
    ensures r.Some? ==> |r.value.rest| < |s|
  {
    match ParseString(s)
    case None => None
    case Some(k) =>
      if k.value != key then None
      else match Expect(k.rest, ':')
        case None => None
        case Some(t) => ParseString(t)
  }

  /** The members with the given keys, in that order, separated by commas. */
  function ParseMembers(s: string, keys: seq<string>): (r: Option<Parsed<seq<string>>>)
    requires keys != []
    ensures r.Some? ==> |r.value.value| == |keys| && |r.value.rest| < |s|
    decreases |keys|
  {
    match ParseMember(s, keys[0])
    case None => None
    case Some(v) =>
      if |keys| == 1 then Some(Parsed([v.value], v.rest))
      else match Expect(v.rest, ',')
        case None => None
        case Some(t) => ParseMembersThen(v.value, ParseMembers(t, keys[1..]))
  }

  function ParseMembersThen(first: string, more: Option<Parsed<seq<string>>>): (r: Option<Parsed<seq<string>>>)
    ensures more.Some? <==> r.Some?
    ensures r.Some? ==> |r.value.value| == 1 + |more.value.value| && r.value.rest == more.value.rest
  {
    match more
    case None => None
    case Some(m) => Some(Parsed([first] + m.value, m.rest))
  }

  function ParseObject(s: string): (r: Option<Parsed<Entry>>)
    ensures r.Some? ==> |r.value.rest| < |s|
  {
    match Expect(s, '{')
    case None => None
    case Some(t) =>
      match ParseMembers(t, Keys)
      case None => None
      case Some(ms) =>
        match Expect(ms.rest, '}')
        case None => None
        case Some(u) => Some(Parsed(FromFields(ms.value), u))
  }

  /** One or more objects separated by commas. */
  function ParseItems(s: string): (r: Option<Parsed<seq<Entry>>>)
    ensures r.Some? ==> |r.value.rest| < |s|
    decreases |s|
  {
    match ParseObject(s)
    case None => None
    case Some(o) =>
      match Expect(o.rest, ',')
      case None => Some(Parsed([o.value], o.rest))
      case Some(t) =>
        match ParseItems(t)
        case None => None
        case Some(more) => Some(Parsed([o.value] + more.value, more.rest))
  }

  function ParseArray(s: string): Option<Parsed<seq<Entry>>>
  {
    match Expect(s, '[')
    case None => None
    case Some(t) =>
      match Expect(t, ']')
      case Some(u) => Some(Parsed([], u))
      case None =>
        match ParseItems(t)
        case None => None
        case Some(items) =>
          match Expect(items.rest, ']')
          case None => None
          case Some(u) => Some(Parsed(items.value, u))
  }

  /** `JSON.parse` of the index text: an array of entry objects, then only
      white space. */
  function ParseIndex(s: string): Option<seq<Entry>>
  {
    match ParseArray(s)
    case None => None
    case Some(p) => if SkipWs(p.rest) == [] then Some(p.value) else None
  }

  // ---------------------------------------------------------------- proofs

  predicate AllSpace(w: string)
  {
    forall i :: 0 <= i < |w| ==> IsJsonSpace(w[i])
  }

  lemma AllSpaceAppend(a: string, b: string)
    requires AllSpace(a) && AllSpace(b)
    ensures AllSpace(a + b)
  {
    forall i | 0 <= i < |a + b| ensures IsJsonSpace((a + b)[i]) {
      if i >= |a| {
        assert (a + b)[i] == b[i - |a|];
      }
    }
  }

  lemma SkipWsNone(t: string)
    requires t == [] || !IsJsonSpace(t[0])
    ensures SkipWs(t) == t
  {
  }

  lemma {:induction false} SkipWsPrefix(w: string, t: string)
    requires AllSpace(w)
    ensures SkipWs(w + t) == SkipWs(t)
    decreases |w|
  {
    if w == [] {
      assert w + t == t;
    } else {
      assert (w + t)[1..] == w[1..] + t;
      SkipWsPrefix(w[1..], t);
    }
  }

  /** An escaped character reads back as that character. */
  lemma ParseEscapedChar(c: char, tail: string)
    ensures ParseStringBody(EscapeJsonChar(c) + tail) ==
      match ParseStringBody(tail)
      case None => None
      case Some(q) => Some(Parsed([c] + q.value, q.rest))
  {
    var e := EscapeJsonChar(c);
    var s := e + tail;
    assert s[..|e|] == e && s[|e|..] == tail;
    if c < ' ' && c != '\U{0008}' && c != '\U{000C}' && c != '\n' && c != '\r' && c != '\t' {
      var h0, h1 := c as int / 16, c as int % 16;
      assert s[2..6] == ['0', '0', HexDigit(h0), HexDigit(h1)];
      HexValueOfDigit(h0);
      HexValueOfDigit(h1);
      assert UnicodeEscape(s[2..6]) == Some(c);
      assert s[6..] == tail;
    } else if e == [c] {
      assert s[1..] == tail;
    } else {
      assert s[2..] == tail;
    }
  }

  /** The escaped text and its closing quote read back as the string. */
  lemma {:induction false} ParseStringBodyOf(v: string, rest: string)
    ensures ParseStringBody(EscapeJson(v) + "\"" + rest) == Some(Parsed(v, rest))
    decreases |v|
  {
    if v == [] {
      assert EscapeJson(v) + "\"" + rest == "\"" + rest;
      assert ("\"" + rest)[1..] == rest;
    } else {
      var tail := EscapeJson(v[1..]) + "\"" + rest;
      assert EscapeJson(v) + "\"" + rest == EscapeJsonChar(v[0]) + tail;
      ParseEscapedChar(v[0], tail);
      ParseStringBodyOf(v[1..], rest);
      assert [v[0]] + v[1..] == v;
    }
  }

  /** What follows optional white space is what `ParseString` reads. */
  lemma ParseStringAfterSpace(w: string, q: string)
    requires AllSpace(w)
    requires q != [] && q[0] == '"'
    ensures ParseString(w + q) == ParseStringBody(q[1..])
  {
    SkipWsPrefix(w, q);
    SkipWsNone(q);
  }

  /** A string literal, after any white space, reads back as its string. */
  lemma ParseStringOf(w: string, v: string, rest: string)
    requires AllSpace(w)
    ensures ParseString(w + Quoted(v) + rest) == Some(Parsed(v, rest))
  {
    var body := EscapeJson(v) + "\"" + rest;
    var q := "\"" + body;
    assert w + Quoted(v) + rest == w + q;
    ParseStringAfterSpace(w, q);
    assert q[1..] == body;
    ParseStringBodyOf(v, rest);
  }

  lemma ExpectOf(w: string, c: char, rest: string)
    requires AllSpace(w)
    requires !IsJsonSpace(c)
    ensures Expect(w + [c] + rest, c) == Some(rest)
  {
    var q := [c] + rest;
    SkipWsPrefix(w, q);
    SkipWsNone(q);
    assert w + [c] + rest == w + q;
    assert q[1..] == rest;
  }

  /** Regrouping a member line and what follows it for reading. */
  lemma Regroup(w: string, ind: string, qk: string, c: string, d: string, qv: string, rest: string)
    ensures w + (ind + qk + (c + d) + qv) + rest == (w + ind) + qk + (c + (d + qv + rest))
  {
    calc {
      w + (ind + qk + (c + d) + qv) + rest;
      w + ind + qk + c + d + qv + rest;
      (w + ind) + qk + (c + (d + qv + rest));
    }
  }

  /** A member line, after any white space, reads back as its value, given
      its key. */
  lemma ParseMemberOf(w: string, key: string, value: string, rest: string)
    requires AllSpace(w) && PlainKey(key)
    ensures ParseMember(w + Member(key, value) + rest, key) == Some(Parsed(value, rest))
  {
    PlainKeyUnescaped(key);
    AllSpaceAppend(w, "    ");
    assert ": " == [':'] + " ";
    Regroup(w, "    ", Quoted(key), [':'], " ", Quoted(value), rest);
    ParseMemberParts(w + "    ", key, value, rest);
  }

  lemma ParseMemberParts(w: string, key: string, value: string, rest: string)
    requires AllSpace(w)
    ensures ParseMember(w + Quoted(key) + ([':'] + (" " + Quoted(value) + rest)), key) == Some(Parsed(value, rest))
  {
    var b := " " + Quoted(value) + rest;
    var a := [':'] + b;
    ParseStringOf(w, key, a);
    ExpectHere(':', b);
    ParseStringAfterBlank(value, rest);
    ParseMemberSteps(w + Quoted(key) + a, key, a, b, value, rest);
  }

  lemma ExpectHere(c: char, rest: string)
    requires !IsJsonSpace(c)
    ensures Expect([c] + rest, c) == Some(rest)
  {
    assert [c] + rest == [] + [c] + rest;
    ExpectOf([], c, rest);
  }

  lemma ParseStringAfterBlank(v: string, rest: string)
    ensures ParseString(" " + Quoted(v) + rest) == Some(Parsed(v, rest))
  {
    ParseStringOf(" ", v, rest);
  }

  lemma ParseMemberSteps(s: string, key: string, a: string, b: string, value: string, rest: string)
    requires ParseString(s) == Some(Parsed(key, a))
    requires Expect(a, ':') == Some(b)
    requires ParseString(b) == Some(Parsed(value, rest))
    ensures ParseMember(s, key) == Some(Parsed(value, rest))
  {
  }

  /** The member lines, after any white space, read back as their values,
      in order. */
  lemma {:induction false} ParseMembersOf(w: string, ps: seq<(string, string)>, rest: string)
    requires AllSpace(w)
    requires ps != [] && PlainKeys(KeysOf(ps))
    ensures ParseMembers(w + Members(ps) + rest, KeysOf(ps)) == Some(Parsed(ValuesOf(ps), rest))
    decreases |ps|
  {
    if |ps| == 1 {
      ParseMembersOne(w, ps, rest);
    } else {
      NewlineIsSpace();
      PlainKeysTail(ps);
      ParseMembersOf("\n", ps[1..], rest);
      ParseMembersCons(w, ps, rest);
    }
  }

  lemma ParseMembersOne(w: string, ps: seq<(string, string)>, rest: string)
    requires AllSpace(w)
    requires |ps| == 1 && PlainKeys(KeysOf(ps))
    ensures ParseMembers(w + Members(ps) + rest, KeysOf(ps)) == Some(Parsed(ValuesOf(ps), rest))
  {
    PlainKeysTail(ps);
    assert Members(ps) == Member(ps[0].0, ps[0].1);
    ParseMemberOf(w, ps[0].0, ps[0].1, rest);
    assert KeysOf(ps)[0] == ps[0].0;
    ParseMembersLast(w + Members(ps) + rest, KeysOf(ps), ps[0].1, rest);
    assert ValuesOf(ps) == [ps[0].1];
  }

  lemma PlainKeysTail(ps: seq<(string, string)>)
    requires ps != [] && PlainKeys(KeysOf(ps))
    ensures PlainKey(ps[0].0) && PlainKeys(KeysOf(ps[1..]))
  {
    assert KeysOf(ps)[0] == ps[0].0;
    var ks := KeysOf(ps[1..]);
    forall i | 0 <= i < |ks| ensures PlainKey(ks[i]) {
      assert ks[i] == KeysOf(ps)[i + 1];
    }
  }

  lemma KeysValuesCons(ps: seq<(string, string)>)
    requires ps != []
    ensures KeysOf(ps)[0] == ps[0].0 && KeysOf(ps)[1..] == KeysOf(ps[1..])
    ensures ValuesOf(ps) == [ps[0].1] + ValuesOf(ps[1..])
  {
    assert KeysOf(ps)[1..] == KeysOf(ps[1..]);
    assert ValuesOf(ps) == [ps[0].1] + ValuesOf(ps[1..]);
  }

  /** The first member, its comma, then the others after a line break. */
  lemma ParseMembersCons(w: string, ps: seq<(string, string)>, rest: string)
    requires AllSpace(w)
    requires |ps| > 1 && PlainKey(ps[0].0)
    requires ParseMembers("\n" + Members(ps[1..]) + rest, KeysOf(ps[1..])) == Some(Parsed(ValuesOf(ps[1..]), rest))
    ensures ParseMembers(w + Members(ps) + rest, KeysOf(ps)) == Some(Parsed(ValuesOf(ps), rest))
  {
    var m := Member(ps[0].0, ps[0].1);
    var more := Members(ps[1..]);
    var t := "\n" + more + rest;
    var c := [','] + t;
    CommaBreak();
    Regroup2(w, m, [','], "\n", more, rest);
    ParseMemberOf(w, ps[0].0, ps[0].1, c);
    ExpectHere(',', t);
    KeysValuesCons(ps);
    ParseMembersSteps(w + m + c, KeysOf(ps), ps[0].1, c, t, ValuesOf(ps[1..]), rest);
  }

  lemma {:induction false} PlainKeyUnescaped(k: string)
    requires PlainKey(k)
    ensures EscapeJson(k) == k
    decreases |k|
  {
    if k != [] {
      PlainKeyUnescaped(k[1..]);
      assert k == [k[0]] + k[1..];
    }
  }

  /** The members of an entry carry the keys the reader expects and the
      entry's fields. */
  lemma PairsOf(e: Entry)
    ensures KeysOf(Pairs(e)) == Keys && PlainKeys(Keys)
    ensures ValuesOf(Pairs(e)) == Fields(e)
  {
  }

  lemma ConsSplit<T>(xs: seq<T>)
    requires xs != []
    ensures [xs[0]] + xs[1..] == xs
  {
  }

  lemma CommaBreak()
    ensures ",\n" == [','] + "\n"
  {
  }

  lemma NewlineIsSpace()
    ensures AllSpace("\n")
  {
  }

  lemma Regroup2(w: string, m: string, c: string, d: string, more: string, rest: string)
    ensures w + (m + (c + d) + more) + rest == w + m + (c + (d + more + rest))
  {
    calc {
      w + (m + (c + d) + more) + rest;
      w + m + c + d + more + rest;
      w + m + (c + (d + more + rest));
    }
  }

  lemma ParseMembersLast(s: string, keys: seq<string>, v: string, rest: string)
    requires |keys| == 1
    requires ParseMember(s, keys[0]) == Some(Parsed(v, rest))
    ensures ParseMembers(s, keys) == Some(Parsed([v], rest))
  {
  }

  lemma ParseMembersSteps(s: string, keys: seq<string>, v: string, c: string, t: string, vs: seq<string>, rest: string)
    requires |keys| > 1
    requires ParseMember(s, keys[0]) == Some(Parsed(v, c))
    requires Expect(c, ',') == Some(t)
    requires ParseMembers(t, keys[1..]) == Some(Parsed(vs, rest))
    ensures ParseMembers(s, keys) == Some(Parsed([v] + vs, rest))
  {
  }

  lemma FieldsOf(e: Entry)
    ensures FromFields(Fields(e)) == e
  {
  }

  /** An entry object, after any white space, reads back as the entry. */
  lemma ParseObjectOf(w: string, e: Entry, rest: string)
    requires AllSpace(w)
    ensures ParseObject(w + ObjectText(e) + rest) == Some(Parsed(e, rest))
  {
    var ms := Members(Pairs(e));
    var close := "\n  " + ['}'] + rest;
    var t := "\n" + ms + close;
    ObjectTextPieces();
    Regroup3(w, "  ", ['{'], "\n", ms, "\n  ", ['}'], rest);
    AllSpaceAppend(w, "  ");
    ExpectOf(w + "  ", '{', t);
    NewlineIsSpace();
    PairsOf(e);
    ParseMembersOf("\n", Pairs(e), close);
    ExpectCloseBrace(rest);
    ParseObjectSteps((w + "  ") + ['{'] + t, t, Fields(e), close, rest);
    FieldsOf(e);
  }

  lemma ObjectTextPieces()
    ensures "  {\n" == "  " + ['{'] + "\n" && "\n  }" == "\n  " + ['}']
    ensures AllSpace("  ")
  {
  }

  lemma Regroup3(w: string, a: string, b: string, c: string, ms: string, d: string, f: string, rest: string)
    ensures w + (a + b + c + ms + (d + f)) + rest == (w + a) + b + (c + ms + (d + f + rest))
  {
    calc {
      w + (a + b + c + ms + (d + f)) + rest;
      w + a + b + c + ms + d + f + rest;
      (w + a) + b + (c + ms + (d + f + rest));
    }
  }

  lemma ExpectCloseBrace(rest: string)
    ensures Expect("\n  " + ['}'] + rest, '}') == Some(rest)
  {
    ExpectOf("\n  ", '}', rest);
  }

  lemma ParseObjectSteps(s: string, t: string, vs: seq<string>, close: string, rest: string)
    requires Expect(s, '{') == Some(t)
    requires ParseMembers(t, Keys) == Some(Parsed(vs, close))
    requires Expect(close, '}') == Some(rest)
    ensures |vs| == 7 && ParseObject(s) == Some(Parsed(FromFields(vs), rest))
  {
  }

  /** After the last object comes no comma. */
  predicate NoCommaNext(rest: string)
  {
    Expect(rest, ',').None?
  }

  /** The objects of a non-empty array, after any white space, read back as
      the entries. */
  lemma {:induction false} ParseItemsOf(w: string, xs: seq<Entry>, rest: string)
    requires AllSpace(w)
    requires xs != [] && NoCommaNext(rest)
    ensures ParseItems(w + Items(xs) + rest) == Some(Parsed(xs, rest))
    decreases |xs|
  {
    if |xs| == 1 {
      ParseItemsOne(w, xs, rest);
    } else {
      NewlineIsSpace();
      ParseItemsOf("\n", xs[1..], rest);
      ParseItemsCons(w, xs, rest);
    }
  }

  /** The first object, its comma, then the others after a line break. */
  lemma ParseItemsCons(w: string, xs: seq<Entry>, rest: string)
    requires AllSpace(w)
    requires |xs| > 1
    requires ParseItems("\n" + Items(xs[1..]) + rest) == Some(Parsed(xs[1..], rest))
    ensures ParseItems(w + Items(xs) + rest) == Some(Parsed(xs, rest))
  {
    var o := ObjectText(xs[0]);
    var more := Items(xs[1..]);
    var t := "\n" + more + rest;
    var c := [','] + t;
    CommaBreak();
    Regroup2(w, o, [','], "\n", more, rest);
    ParseObjectOf(w, xs[0], c);
    ExpectHere(',', t);
    ParseItemsSteps(w + o + c, xs[0], c, t, xs[1..], rest);
    ConsSplit(xs);
  }

  lemma ParseItemsOne(w: string, xs: seq<Entry>, rest: string)
    requires AllSpace(w)
    requires |xs| == 1 && NoCommaNext(rest)
    ensures ParseItems(w + Items(xs) + rest) == Some(Parsed(xs, rest))
  {
    var s := w + Items(xs) + rest;
    assert s == w + ObjectText(xs[0]) + rest by {
      assert Items(xs) == ObjectText(xs[0]);
    }
    assert ParseObject(s) == Some(Parsed(xs[0], rest)) by {
      ParseObjectOf(w, xs[0], rest);
    }
    ParseItemsLast(s, xs[0], rest);
    assert xs == [xs[0]];
  }

  lemma ParseItemsLast(s: string, x: Entry, rest: string)
    requires ParseObject(s) == Some(Parsed(x, rest)) && NoCommaNext(rest)
    ensures ParseItems(s) == Some(Parsed([x], rest))
  {
  }

  lemma ParseItemsSteps(s: string, x: Entry, c: string, t: string, xs: seq<Entry>, rest: string)
    requires ParseObject(s) == Some(Parsed(x, c))
    requires Expect(c, ',') == Some(t)
    requires ParseItems(t) == Some(Parsed(xs, rest))
    ensures ParseItems(s) == Some(Parsed([x] + xs, rest))
  {
  }

  /** Every item list starts with the indented brace of its first object. */
  lemma {:induction false} ItemsStart(xs: seq<Entry>)
    requires xs != []
    ensures |Items(xs)| >= 3 && Items(xs)[..3] == "  {"
    decreases |xs|
  {
    var o := ObjectText(xs[0]);
    assert o[..3] == "  {";
    if |xs| > 1 {
      var r := ",\n" + Items(xs[1..]);
      assert Items(xs) == o + r;
      assert (o + r)[..3] == o[..3];
    }
  }

  /** An array whose items begin with an object is not read as empty. */
  lemma NotClosedBeforeItems(xs: seq<Entry>, rest: string)
    requires xs != []
    ensures Expect("\n" + Items(xs) + rest, ']').None?
  {
    ItemsStart(xs);
    NotClosedBeforeBrace(Items(xs), rest);
  }

  lemma NotClosedBeforeBrace(its: string, rest: string)
    requires |its| >= 3 && its[..3] == "  {"
    ensures Expect("\n" + its + rest, ']').None?
  {
    var q := ['{'] + (its[3..] + rest);
    assert its == "  {" + its[3..];
    assert "\n" + its + rest == "\n  " + q;
    SkipWsPrefix("\n  ", q);
    SkipWsNone(q);
  }

  lemma ArrayPieces()
    ensures "[\n" == ['['] + "\n" && "\n]" == "\n" + [']']
    ensures AllSpace("\n")
  {
  }

  lemma EmptyArrayText(rest: string)
    ensures Serialize([]) + rest == ['['] + ([']'] + rest)
  {
  }

  lemma CloseBracket(rest: string)
    ensures Expect("\n" + [']'] + rest, ']') == Some(rest)
    ensures NoCommaNext("\n" + [']'] + rest)
  {
    ExpectOf("\n", ']', rest);
    SkipWsPrefix("\n", [']'] + rest);
    SkipWsNone([']'] + rest);
    assert "\n" + [']'] + rest == "\n" + ([']'] + rest);
  }

  lemma Regroup4(a: string, b: string, its: string, c: string, d: string, rest: string)
    ensures a + b + its + (c + d) + rest == a + (b + its + (c + d + rest))
  {
  }

  lemma ParseEmptyArraySteps(s: string, t: string, rest: string)
    requires Expect(s, '[') == Some(t) && Expect(t, ']') == Some(rest)
    ensures ParseArray(s) == Some(Parsed([], rest))
  {
  }

  lemma ParseArraySteps(s: string, t: string, xs: seq<Entry>, u: string, rest: string)
    requires Expect(s, '[') == Some(t) && Expect(t, ']').None?
    requires ParseItems(t) == Some(Parsed(xs, u)) && Expect(u, ']') == Some(rest)
    ensures ParseArray(s) == Some(Parsed(xs, rest))
  {
  }

  /** The serialized array reads back as the entries. */
  lemma ParseArrayOf(xs: seq<Entry>, rest: string)
    ensures ParseArray(Serialize(xs) + rest) == Some(Parsed(xs, rest))
  {
    if xs == [] {
      EmptyArrayText(rest);
      ExpectHere('[', [']'] + rest);
      ExpectHere(']', rest);
      ParseEmptyArraySteps(Serialize(xs) + rest, [']'] + rest, rest);
    } else {
      var close := "\n" + [']'] + rest;
      var body := "\n" + Items(xs) + close;
      ArrayPieces();
      Regroup4(['['], "\n", Items(xs), "\n", [']'], rest);
      ExpectHere('[', body);
      NotClosedBeforeItems(xs, close);
      CloseBracket(rest);
      ParseItemsOf("\n", xs, close);
      ParseArraySteps(['['] + body, body, xs, close, rest);
    }
  }

  /** Parsing the index text gives back the entries it was written from. */
  lemma ParseIndexText(xs: seq<Entry>)
    ensures ParseIndex(IndexText(xs)) == Some(xs)
  {
    ParseArrayOf(xs, "\n");
    assert SkipWs("\n") == [];
  }
}
