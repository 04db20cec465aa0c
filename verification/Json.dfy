/** The JSON the daemon writes without parsing any: error replies as string
    literals (daemon/src/dbus_util.cpp) and poll replies as spliced arrays
    (daemon/src/proto/rx_buffer.cpp), against sections 2, 5 and 7 of RFC 8259. */
module JsonText {
  import opened Framing
  import opened Options
  import opened RxQueue

  const QUOTE: byte := 0x22
  const BACKSLASH: byte := 0x5C
  const LBRACE: byte := 0x7B
  const RBRACE: byte := 0x7D
  const COLON: byte := 0x3A
  const TAB: byte := 9
  const NEWLINE: byte := 10
  const RETURN: byte := 13
  const SPACE: byte := 32

  function Ascii(s: string): Bytes {
    seq(|s|, i requires 0 <= i < |s| => (s[i] as int % 256) as byte)
  }

  // ---- string literals ------------------------------------------------------

  function EscapedByte(c: byte): Bytes {
    if c == QUOTE then [BACKSLASH, QUOTE]
    else if c == BACKSLASH then [BACKSLASH, BACKSLASH]
    else if c == NEWLINE then [BACKSLASH, 'n' as byte]
    else if c == RETURN then [BACKSLASH, 'r' as byte]
    else if c == TAB then [BACKSLASH, 't' as byte]
    else [c]
  }

  ghost function Escaped(s: Bytes): Bytes {
    if s == [] then [] else Escaped(s[..|s| - 1]) + EscapedByte(s[|s| - 1])
  }

  ghost function Quoted(s: Bytes): (q: Bytes)
    ensures 2 <= |q| && q[0] == QUOTE
  {
    [QUOTE] + Escaped(s) + [QUOTE]
  }

  /** Encode an error text as a JSON string literal. */
  method JsonString(s: Bytes) returns (out: Bytes)
    ensures out == Quoted(s)
  {
    out := [QUOTE];
    for i := 0 to |s|
      invariant out == [QUOTE] + Escaped(s[..i])
    {
      assert s[..i + 1][..i] == s[..i];
      out := out + EscapedByte(s[i]);
    }
    assert s[..|s|] == s;
    out := out + [QUOTE];
  }

  /** The character a two-character escape stands for (section 7; \u is never
      written here and is not read back). */
  function Unescaped(c: byte): Option<byte> {
    if c == QUOTE || c == BACKSLASH || c == '/' as byte then Some(c)
    else if c == 'b' as byte then Some(8)
    else if c == 'f' as byte then Some(12)
    else if c == 'n' as byte then Some(NEWLINE)
    else if c == 'r' as byte then Some(RETURN)
    else if c == 't' as byte then Some(TAB)
    else None
  }

  /** The inside of a literal, up to a closing quote that must come last. Control
      characters must not stand there unescaped. */
  function ReadInside(t: Bytes): Option<Bytes> {
    if t == [] then None
    else if t[0] == QUOTE then (if |t| == 1 then Some([]) else None)
    else if t[0] < 0x20 then None
    else if t[0] == BACKSLASH then
      if |t| < 2 || Unescaped(t[1]).None? then None
      else match ReadInside(t[2..])
           case None => None
           case Some(r) => Some([Unescaped(t[1]).value] + r)
    else match ReadInside(t[1..])
         case None => None
         case Some(r) => Some([t[0]] + r)
  }

  function ReadLiteral(t: Bytes): Option<Bytes> {
    if t == [] || t[0] != QUOTE then None else ReadInside(t[1..])
  }

  /** The control characters `JsonString` passes through although section 7 forbids them. */
  predicate Untreated(c: byte) {
    c < 0x20 && c != NEWLINE && c != RETURN && c != TAB
  }

  lemma ReadOne(c: byte, rest: Bytes)
    ensures ReadInside(EscapedByte(c) + rest) ==
            if Untreated(c) || ReadInside(rest).None? then None else Some([c] + ReadInside(rest).value)
  {
    var e := EscapedByte(c) + rest;
    assert |EscapedByte(c)| == 1 ==> e[1..] == rest;
    assert |EscapedByte(c)| == 2 ==> e[2..] == rest;
  }

  predicate Clean(s: Bytes) { forall c :: c in s ==> !Untreated(c) }

  lemma {:induction false} ReadEscaped(s: Bytes, rest: Bytes)
    ensures ReadInside(Escaped(s) + rest) ==
            if !Clean(s) || ReadInside(rest).None? then None else Some(s + ReadInside(rest).value)
  {
    hide ReadInside, Untreated, EscapedByte;
    if s == [] {
      assert Escaped(s) + rest == rest;
      assert ReadInside(rest).Some? ==> s + ReadInside(rest).value == ReadInside(rest).value;
    } else {
      var front, c := s[..|s| - 1], s[|s| - 1];
      assert s == front + [c];
      assert Clean(s) <==> Clean(front) && !Untreated(c);
      assert Escaped(s) + rest == Escaped(front) + (EscapedByte(c) + rest);
      ReadOne(c, rest);
      ReadEscaped(front, EscapedByte(c) + rest);
      assert ReadInside(rest).Some? ==> front + ([c] + ReadInside(rest).value) == s + ReadInside(rest).value;
    }
  }

  /** The literal reads back as the text exactly when the text has no control
      character besides line feed, carriage return and tab; otherwise it is not a
      JSON string at all. */
  lemma LiteralRoundTrip(s: Bytes)
    ensures ReadLiteral(Quoted(s)) ==
            if Clean(s) then Some(s) else None
  {
    ReadEscaped(s, [QUOTE]);
    assert Quoted(s)[1..] == Escaped(s) + [QUOTE];
    assert s + [] == s;
  }

  // ---- arrays of payloads ---------------------------------------------------

  /** Where a reader stands: bracket depth, and whether inside a string literal
      and just behind a backslash there. */
  datatype Place = Place(depth: int, inString: bool, escaped: bool)
  const TOP := Place(0, false, false)

  function Past(p: Place, c: byte): Place {
    if p.inString then
      if p.escaped then p.(escaped := false)
      else if c == BACKSLASH then p.(escaped := true)
      else if c == QUOTE then p.(inString := false)
      else p
    else if c == QUOTE then p.(inString := true)
    else if c == OPEN || c == LBRACE then p.(depth := p.depth + 1)
    else if c == CLOSE || c == RBRACE then p.(depth := p.depth - 1)
    else p
  }

  function Walk(s: Bytes, p: Place): Place {
    if s == [] then p else Walk(s[1..], Past(p, s[0]))
  }

  /** No separator in `s`, read from `p` on, stands at the top. */
  predicate NoTopComma(s: Bytes, p: Place) {
    s == [] || (!(p == TOP && s[0] == COMMA) && NoTopComma(s[1..], Past(p, s[0])))
  }

  /** Cut at every comma at the top; `cur` is the piece begun before `s`. */
  function CutAtTop(s: Bytes, p: Place, cur: Bytes): (pieces: seq<Bytes>)
    ensures pieces != [] && cur <= pieces[0]
  {
    if s == [] then [cur]
    else if p == TOP && s[0] == COMMA then [cur] + CutAtTop(s[1..], TOP, [])
    else CutAtTop(s[1..], Past(p, s[0]), cur + [s[0]])
  }

  /** The element texts of an array text. */
  function Elements(text: Bytes): seq<Bytes>
    requires 2 <= |text|
  {
    if |text| == 2 then [] else CutAtTop(text[1..|text| - 1], TOP, [])
  }

  lemma {:induction false} CutThrough(s: Bytes, rest: Bytes, p: Place, cur: Bytes)
    requires NoTopComma(s, p)
    ensures CutAtTop(s + rest, p, cur) == CutAtTop(rest, Walk(s, p), cur + s)
  {
    if s == [] {
      assert s + rest == rest && cur + s == cur;
    } else {
      assert (s + rest)[1..] == s[1..] + rest;
      assert cur + s == cur + [s[0]] + s[1..];
      CutThrough(s[1..], rest, Past(p, s[0]), cur + [s[0]]);
    }
  }

  /** If the first piece is `cur + s` although more follows `s`, the cut was made
      at a comma right behind `s`. */
  lemma {:induction false} CutBehind(s: Bytes, rest: Bytes, p: Place, cur: Bytes)
    requires CutAtTop(s + rest, p, cur)[0] == cur + s
    ensures NoTopComma(s, p)
    ensures rest != [] ==> Walk(s, p) == TOP && rest[0] == COMMA
    ensures rest != [] ==> CutAtTop(s + rest, p, cur) == [cur + s] + CutAtTop(rest[1..], TOP, [])
  {
    if s == [] {
      assert s + rest == rest && cur + s == cur;
    } else {
      assert (s + rest)[1..] == s[1..] + rest;
      assert cur + s == cur + [s[0]] + s[1..];
      CutBehind(s[1..], rest, Past(p, s[0]), cur + [s[0]]);
    }
  }

  /** Payloads that keep their commas to themselves: none of them has one at the
      top, and all but the last leave the reader at the top. */
  predicate Separable(q: seq<Bytes>) {
    && (forall i :: 0 <= i < |q| ==> NoTopComma(q[i], TOP))
    && (forall i :: 0 <= i < |q| - 1 ==> Walk(q[i], TOP) == TOP)
  }

  lemma SeparableCons(m: Bytes, q: seq<Bytes>)
    requires q != []
    ensures Separable([m] + q) <==> NoTopComma(m, TOP) && Walk(m, TOP) == TOP && Separable(q)
  {
    hide NoTopComma, Walk;
    var all := [m] + q;
    assert all[0] == m && forall i :: 0 <= i < |q| ==> q[i] == all[i + 1];
    assert forall i :: 0 < i < |all| ==> all[i] == q[i - 1];
  }

  lemma CutOne(m: Bytes)
    ensures CutAtTop(m, TOP, []) == [m] <==> NoTopComma(m, TOP)
  {
    assert m + [] == m && [] + m == m;
    if NoTopComma(m, TOP) {
      CutThrough(m, [], TOP, []);
    }
    if CutAtTop(m, TOP, []) == [m] {
      CutBehind(m, [], TOP, []);
    }
  }

  /** The first payload comes back, and the others after it, exactly if it ends at
      the top without a comma there and the others come back by themselves. */
  lemma CutMore(m: Bytes, tail: Bytes, q: seq<Bytes>)
    ensures CutAtTop(m + ([COMMA] + tail), TOP, []) == [m] + q <==>
            NoTopComma(m, TOP) && Walk(m, TOP) == TOP && CutAtTop(tail, TOP, []) == q
  {
    hide NoTopComma, Walk;
    var rest := [COMMA] + tail;
    assert rest[1..] == tail && [] + m == m;
    var cut := CutAtTop(m + rest, TOP, []);
    if NoTopComma(m, TOP) && Walk(m, TOP) == TOP {
      CutThrough(m, rest, TOP, []);
      assert cut == [m] + CutAtTop(tail, TOP, []);
      assert cut[1..] == CutAtTop(tail, TOP, []) && ([m] + q)[1..] == q;
    } else if cut == [m] + q {
      CutBehind(m, rest, TOP, []);
    }
  }

  lemma {:induction false} CutJoin(q: seq<Bytes>)
    requires q != []
    ensures CutAtTop(Join(q), TOP, []) == q <==> Separable(q)
  {
    hide CutAtTop, NoTopComma, Walk;
    assert q == [q[0]] + q[1..];
    if |q| == 1 {
      CutOne(q[0]);
    } else {
      CutJoin(q[1..]);
      assert Join(q) == q[0] + ([COMMA] + Join(q[1..]));
      hide Join, Separable;
      SeparableCons(q[0], q[1..]);
      CutMore(q[0], Join(q[1..]), q[1..]);
    }
  }

  /** A reader of a poll reply finds exactly the queued payloads if and only if
      they are separable (one lone empty payload aside). */
  lemma ElementsOfArray(q: seq<Bytes>)
    ensures Elements(JsonArray(q)) == q <==> Separable(q) && q != [[]]
  {
    if q != [] {
      CutJoin(q);
      assert JsonArray(q)[1..|JsonArray(q)| - 1] == Join(q);
      if Join(q) == [] {
        assert |q| == 1;
        assert q == [q[0]];
      }
    }
  }

  // ---- JSON texts are separable -----------------------------------------------

  /** The texts of RFC 8259, and some more: the inside of a string need only not
      close it, a number or name need only avoid structural characters. */
  datatype Value =
    | Scalar(text: Bytes)
    | Text(inside: Bytes)
    | Array(items: List)
    | Object(members: List)
  datatype Padded = Padded(before: Bytes, value: Value, after: Bytes)
  /** Elements, or members if `key` is given (its padded literal). */
  datatype List = Empty(blank: Bytes) | One(key: Key, item: Padded) | More(key: Key, item: Padded, rest: List)
  datatype Key = NoKey | Key(before: Bytes, inside: Bytes, after: Bytes)

  predicate Blank(s: Bytes) {
    forall c :: c in s ==> c == SPACE || c == TAB || c == NEWLINE || c == RETURN
  }

  predicate Plain(s: Bytes) {
    forall c :: c in s ==>
      c != QUOTE && c != OPEN && c != CLOSE && c != LBRACE && c != RBRACE && c != COMMA && c != COLON
  }

  predicate Inside(s: Bytes) {
    s == [] || (s[0] != QUOTE && if s[0] == BACKSLASH then |s| > 1 && Inside(s[2..]) else Inside(s[1..]))
  }

  ghost predicate WellFormed(v: Value) {
    match v
    case Scalar(t) => t != [] && Plain(t)
    case Text(i) => Inside(i)
    case Array(l) => WellFormedList(l)
    case Object(l) => WellFormedList(l)
  }

  ghost predicate WellFormedPadded(p: Padded) { Blank(p.before) && WellFormed(p.value) && Blank(p.after) }

  ghost predicate WellFormedKey(k: Key) { k.NoKey? || (Blank(k.before) && Inside(k.inside) && Blank(k.after)) }

  ghost predicate WellFormedList(l: List) {
    match l
    case Empty(b) => Blank(b)
    case One(k, p) => WellFormedKey(k) && WellFormedPadded(p)
    case More(k, p, r) => WellFormedKey(k) && WellFormedPadded(p) && WellFormedList(r)
  }

  ghost function Written(v: Value): Bytes {
    match v
    case Scalar(t) => t
    case Text(i) => [QUOTE] + i + [QUOTE]
    case Array(l) => [OPEN] + WrittenList(l) + [CLOSE]
    case Object(l) => [LBRACE] + WrittenList(l) + [RBRACE]
  }

  ghost function WrittenPadded(p: Padded): Bytes { p.before + Written(p.value) + p.after }

  ghost function WrittenKey(k: Key): Bytes {
    match k
    case NoKey => []
    case Key(b, i, a) => b + ([QUOTE] + i + [QUOTE]) + a + [COLON]
  }

  ghost function WrittenList(l: List): Bytes {
    match l
    case Empty(b) => b
    case One(k, p) => WrittenKey(k) + WrittenPadded(p)
    case More(k, p, r) => WrittenKey(k) + WrittenPadded(p) + [COMMA] + WrittenList(r)
  }

  /** `s`, read at depth `d` outside strings, comes back there, and its commas are
      all inside strings or deeper than `level`. */
  ghost predicate Enclosed(s: Bytes, d: nat, level: int) {
    Walk(s, Place(d, false, false)) == Place(d, false, false) && Deeper(s, Place(d, false, false), level)
  }

  ghost predicate Deeper(s: Bytes, p: Place, level: int) {
    s == [] || ((s[0] == COMMA ==> p.inString || level < p.depth) && Deeper(s[1..], Past(p, s[0]), level))
  }

  lemma {:induction false} WalkAppend(s: Bytes, t: Bytes, p: Place, level: int)
    ensures Walk(s + t, p) == Walk(t, Walk(s, p))
    ensures Deeper(s + t, p, level) == (Deeper(s, p, level) && Deeper(t, Walk(s, p), level))
  {
    if s == [] {
      assert s + t == t;
    } else {
      assert (s + t)[1..] == s[1..] + t;
      WalkAppend(s[1..], t, Past(p, s[0]), level);
    }
  }

  lemma EnclosedAppend(s: Bytes, t: Bytes, d: nat, level: int)
    requires Enclosed(s, d, level) && Enclosed(t, d, level)
    ensures Enclosed(s + t, d, level)
  {
    WalkAppend(s, t, Place(d, false, false), level);
  }

  lemma {:induction false} PlainEnclosed(s: Bytes, d: nat, level: int)
    requires forall c :: c in s ==> c == COLON || Plain([c])
    ensures Enclosed(s, d, level)
  {
    if s != [] {
      assert s[0] in s && s[0] in [s[0]];
      PlainEnclosed(s[1..], d, level);
    }
  }

  lemma BlankEnclosed(s: Bytes, d: nat, level: int)
    requires Blank(s) || Plain(s)
    ensures Enclosed(s, d, level)
  {
    PlainEnclosed(s, d, level);
  }

  lemma {:induction false} InsideWalk(s: Bytes, d: nat, level: int)
    requires Inside(s)
    ensures Walk(s, Place(d, true, false)) == Place(d, true, false)
    ensures Deeper(s, Place(d, true, false), level)
  {
    if s != [] {
      if s[0] == BACKSLASH {
        assert s[1..][1..] == s[2..];
        InsideWalk(s[2..], d, level);
      } else {
        InsideWalk(s[1..], d, level);
      }
    }
  }

  lemma TextEnclosed(i: Bytes, d: nat, level: int)
    requires Inside(i)
    ensures Enclosed([QUOTE] + i + [QUOTE], d, level)
  {
    InsideWalk(i, d, level);
    var s := [QUOTE] + i + [QUOTE];
    assert s[1..] == i + [QUOTE];
    WalkAppend(i, [QUOTE], Place(d, true, false), level);
    assert [QUOTE][1..] == [];
  }

  /** Brackets around a list whose commas may stand directly between them. */
  lemma BracketsEnclosed(open: byte, s: Bytes, close: byte, d: nat, level: int)
    requires (open == OPEN && close == CLOSE) || (open == LBRACE && close == RBRACE)
    requires Enclosed(s, d + 1, level)
    ensures Enclosed([open] + s + [close], d, level)
  {
    var t := [open] + s + [close];
    assert t[1..] == s + [close];
    WalkAppend(s, [close], Place(d + 1, false, false), level);
    assert [close][1..] == [];
  }

  lemma KeyEnclosed(k: Key, d: nat, level: int)
    requires WellFormedKey(k)
    ensures Enclosed(WrittenKey(k), d, level)
  {
    match k
    case NoKey =>
    case Key(b, i, a) =>
      BlankEnclosed(b, d, level);
      TextEnclosed(i, d, level);
      BlankEnclosed(a, d, level);
      PlainEnclosed([COLON], d, level);
      EnclosedAppend(b, [QUOTE] + i + [QUOTE], d, level);
      EnclosedAppend(b + ([QUOTE] + i + [QUOTE]), a, d, level);
      EnclosedAppend(b + ([QUOTE] + i + [QUOTE]) + a, [COLON], d, level);
  }

  lemma {:induction false} ValueEnclosed(v: Value, d: nat, level: int)
    requires WellFormed(v) && level <= d
    ensures Enclosed(Written(v), d, level) && Written(v) != []
    decreases v
  {
    match v
    case Scalar(t) => BlankEnclosed(t, d, level);
    case Text(i) => TextEnclosed(i, d, level);
    case Array(l) =>
      ListEnclosed(l, d + 1, level);
      BracketsEnclosed(OPEN, WrittenList(l), CLOSE, d, level);
    case Object(l) =>
      ListEnclosed(l, d + 1, level);
      BracketsEnclosed(LBRACE, WrittenList(l), RBRACE, d, level);
  }

  lemma {:induction false} PaddedEnclosed(p: Padded, d: nat, level: int)
    requires WellFormedPadded(p) && level <= d
    ensures Enclosed(WrittenPadded(p), d, level) && WrittenPadded(p) != []
    decreases p
  {
    BlankEnclosed(p.before, d, level);
    ValueEnclosed(p.value, d, level);
    BlankEnclosed(p.after, d, level);
    EnclosedAppend(p.before, Written(p.value), d, level);
    EnclosedAppend(p.before + Written(p.value), p.after, d, level);
  }

  lemma {:induction false} ListEnclosed(l: List, d: nat, level: int)
    requires WellFormedList(l) && level < d
    ensures Enclosed(WrittenList(l), d, level)
    decreases l
  {
    match l
    case Empty(b) => BlankEnclosed(b, d, level);
    case One(k, p) =>
      KeyEnclosed(k, d, level);
      PaddedEnclosed(p, d, level);
      EnclosedAppend(WrittenKey(k), WrittenPadded(p), d, level);
    case More(k, p, r) =>
      KeyEnclosed(k, d, level);
      PaddedEnclosed(p, d, level);
      EnclosedAppend(WrittenKey(k), WrittenPadded(p), d, level);
      assert Enclosed([COMMA], d, level) by { assert [COMMA][1..] == []; }
      EnclosedAppend(WrittenKey(k) + WrittenPadded(p), [COMMA], d, level);
      ListEnclosed(r, d, level);
      EnclosedAppend(WrittenKey(k) + WrittenPadded(p) + [COMMA], WrittenList(r), d, level);
  }

  lemma {:induction false} DeeperHasNoTopComma(s: Bytes, p: Place)
    requires Deeper(s, p, 0)
    ensures NoTopComma(s, p)
  {
    if s != [] {
      DeeperHasNoTopComma(s[1..], Past(p, s[0]));
    }
  }

  /** What the framing contract asks of clients - every payload is a JSON text -
      suffices for the script to get back exactly the payloads that were queued. */
  lemma JsonPayloadsComeBack(ps: seq<Padded>, q: seq<Bytes>)
    requires |ps| == |q|
    requires forall i :: 0 <= i < |q| ==> WellFormedPadded(ps[i]) && q[i] == WrittenPadded(ps[i])
    ensures Elements(JsonArray(q)) == q
  {
    forall i | 0 <= i < |q|
      ensures NoTopComma(q[i], TOP) && Walk(q[i], TOP) == TOP && q[i] != []
    {
      PaddedEnclosed(ps[i], 0, 0);
      DeeperHasNoTopComma(q[i], TOP);
    }
    ElementsOfArray(q);
  }

  // ---- reading an object by the names of its members -----------------------------

  /** The value text of the last member with this name, in an object written without
      blanks. (`Elements` cuts the inside of brackets of either kind.) */
  function ValueOf(members: seq<Bytes>, name: Bytes): Option<Bytes> {
    if members == [] then None
    else
      var (key, m) := ([QUOTE] + name + [QUOTE, COLON], members[|members| - 1]);
      if key <= m then Some(m[|key|..]) else ValueOf(members[..|members| - 1], name)
  }

  lemma MemberEnclosed(name: Bytes, v: Value)
    requires Inside(name) && WellFormed(v)
    ensures var m := [QUOTE] + name + [QUOTE, COLON] + Written(v); NoTopComma(m, TOP) && Walk(m, TOP) == TOP
  {
    hide Written, WellFormed, Inside, Walk, NoTopComma, Deeper;
    var key := Key([], name, []);
    assert WellFormedKey(key) by { assert Blank([]); }
    KeyEnclosed(key, 0, 0);
    ValueEnclosed(v, 0, 0);
    EnclosedAppend(WrittenKey(key), Written(v), 0, 0);
    var m := [QUOTE] + name + [QUOTE, COLON] + Written(v);
    assert m == WrittenKey(key) + Written(v);
    DeeperHasNoTopComma(m, TOP);
  }

  lemma TwoMembersCut(text: Bytes, a: Bytes, b: Bytes)
    requires NoTopComma(a, TOP) && Walk(a, TOP) == TOP && NoTopComma(b, TOP) && b != []
    requires text == [LBRACE] + a + [COMMA] + b + [RBRACE]
    ensures Elements(text) == [a, b]
  {
    hide Walk, NoTopComma, CutAtTop;
    CutJoin([a, b]);
    assert [a, b][1..] == [b] && Join([b]) == b;
    assert text[1..|text| - 1] == a + [COMMA] + b;
  }

  /** The name of the first is longer than that of the second and has no quote where
      that one ends, so the two cannot be taken for each other. */
  lemma TwoNamesApart(k1: Bytes, t1: Bytes, k2: Bytes, t2: Bytes)
    requires |k1| > |k2| && k1[|k2|] != QUOTE
    ensures var ms := [[QUOTE] + k1 + [QUOTE, COLON] + t1, [QUOTE] + k2 + [QUOTE, COLON] + t2];
            ValueOf(ms, k1) == Some(t1) && ValueOf(ms, k2) == Some(t2)
  {
    var key1, key2 := [QUOTE] + k1 + [QUOTE, COLON], [QUOTE] + k2 + [QUOTE, COLON];
    var m1, m2 := key1 + t1, key2 + t2;
    assert key1[|k2| + 1] != QUOTE && m2[|k2| + 1] == QUOTE;
    assert m1[|key1|..] == t1 && m2[|key2|..] == t2;
    assert [m1, m2][..1] == [m1];
    assert ValueOf([m1], k1) == Some(t1);
  }

  /** An object of two members, read back by their names. */
  lemma TwoMembersRead(text: Bytes, k1: Bytes, v1: Value, k2: Bytes, v2: Value)
    requires Inside(k1) && Inside(k2) && WellFormed(v1) && WellFormed(v2)
    requires text == [LBRACE] + ([QUOTE] + k1 + [QUOTE, COLON] + Written(v1)) + [COMMA]
                     + ([QUOTE] + k2 + [QUOTE, COLON] + Written(v2)) + [RBRACE]
    requires |k1| > |k2| && k1[|k2|] != QUOTE
    ensures ValueOf(Elements(text), k1) == Some(Written(v1)) && ValueOf(Elements(text), k2) == Some(Written(v2))
  {
    hide Written, WellFormed, Inside, Walk, NoTopComma, CutAtTop, Elements, ValueOf;
    MemberEnclosed(k1, v1);
    MemberEnclosed(k2, v2);
    TwoMembersCut(text, [QUOTE] + k1 + [QUOTE, COLON] + Written(v1), [QUOTE] + k2 + [QUOTE, COLON] + Written(v2));
    TwoNamesApart(k1, Written(v1), k2, Written(v2));
  }

  ghost function Elems(ps: seq<Padded>): List
    requires ps != []
  {
    if |ps| == 1 then One(NoKey, ps[0]) else More(NoKey, ps[0], Elems(ps[1..]))
  }

  lemma {:induction false} ElemsAreJoined(ps: seq<Padded>, q: seq<Bytes>)
    requires |ps| == |q| && ps != []
    requires forall i :: 0 <= i < |q| ==> WellFormedPadded(ps[i]) && q[i] == WrittenPadded(ps[i])
    ensures WellFormedList(Elems(ps)) && WrittenList(Elems(ps)) == Join(q)
  {
    hide WellFormedPadded, WrittenPadded;
    if |ps| == 1 {
      assert [] + q[0] == q[0];
    } else {
      ElemsAreJoined(ps[1..], q[1..]);
      assert [] + q[0] == q[0];
    }
  }

  /** ... and the reply is a JSON text itself: the array of these payloads. */
  lemma ReplyIsJson(ps: seq<Padded>, q: seq<Bytes>)
    requires |ps| == |q|
    requires forall i :: 0 <= i < |q| ==> WellFormedPadded(ps[i]) && q[i] == WrittenPadded(ps[i])
    ensures var reply := Padded([], Array(if ps == [] then Empty([]) else Elems(ps)), []);
            WellFormedPadded(reply) && WrittenPadded(reply) == JsonArray(q)
  {
    if ps != [] {
      ElemsAreJoined(ps, q);
    }
    var list := if ps == [] then Empty([]) else Elems(ps);
    assert WrittenList(list) == Join(q);
    assert Written(Array(list)) == JsonArray(q);
    assert [] + JsonArray(q) + [] == JsonArray(q);
  }

  /** A payload that is no JSON text can come out as two messages. */
  lemma OpaquePayloadCanSplit()
    ensures Elements(JsonArray([['1' as byte, COMMA, '2' as byte]])) == [['1' as byte], ['2' as byte]]
  {
    var p := ['1' as byte, COMMA, '2' as byte];
    assert JsonArray([p]) == [OPEN] + p + [CLOSE];
    assert JsonArray([p])[1..|JsonArray([p])| - 1] == p;
    assert p[1..] == [COMMA, '2' as byte] && p[1..][1..] == ['2' as byte] && p[1..][1..][1..] == [];
    assert [] + ['1' as byte] == ['1' as byte] && [] + ['2' as byte] == ['2' as byte];
    var tail := p[1..][1..];
    assert CutAtTop(tail, TOP, []) == CutAtTop(tail[1..], TOP, [] + [tail[0]]) == [['2' as byte]];
    assert CutAtTop(p[1..], TOP, ['1' as byte]) == [['1' as byte]] + CutAtTop(tail, TOP, []);
  }
}
