/** Staging the script: the service-name placeholder is replaced by the daemon's
    D-Bus name (daemon/src/file_util.cpp, daemon/src/config.cpp). */
module Staging {

  const PLACEHOLDER := "@DAEMON_DBUS_SERVICE@"

  // ---- D-Bus well-known names ---------------------------------------------------

  predicate IsAlpha(c: char) { 'a' <= c <= 'z' || 'A' <= c <= 'Z' }
  predicate IsAlnum(c: char) { IsAlpha(c) || '0' <= c <= '9' }
  predicate StartsElement(c: char) { IsAlpha(c) || c == '_' }
  predicate InElement(c: char) { IsAlnum(c) || c == '_' || c == '-' }

  /** One element: not empty, led by a letter or '_'. */
  predicate Element(e: string) {
    e != "" && StartsElement(e[0]) && forall i :: 0 < i < |e| ==> InElement(e[i])
  }

  ghost predicate AllElements(es: seq<string>) {
    forall e :: e in es ==> Element(e)
  }

  ghost function Dotted(es: seq<string>): string {
    if es == [] then "" else if |es| == 1 then es[0] else es[0] + "." + Dotted(es[1..])
  }

  /** The grammar: at most 255 characters, two or more elements joined by '.'. */
  ghost predicate DBusName(name: string) {
    |name| <= 255 && exists es: seq<string> :: 2 <= |es| && AllElements(es) && Dotted(es) == name
  }

  /** A scan from left to right; `start` if an element must begin here. */
  predicate Accepts(s: string, start: bool) {
    if s == "" then !start
    else if s[0] == '.' then !start && Accepts(s[1..], true)
    else (if start then StartsElement(s[0]) else InElement(s[0])) && Accepts(s[1..], false)
  }

  lemma {:induction false} AcceptsInside(x: string, rest: string)
    requires forall i :: 0 <= i < |x| ==> InElement(x[i])
    ensures Accepts(x + rest, false) == Accepts(rest, false)
  {
    if x == "" {
      assert x + rest == rest;
    } else {
      assert (x + rest)[1..] == x[1..] + rest;
      AcceptsInside(x[1..], rest);
    }
  }

  lemma {:induction false} DottedIsAccepted(es: seq<string>)
    requires es != [] && AllElements(es)
    ensures Accepts(Dotted(es), true)
    ensures 2 <= |es| ==> '.' in Dotted(es)
  {
    var e := es[0];
    assert Element(e);
    var rest := if |es| == 1 then "" else "." + Dotted(es[1..]);
    assert Dotted(es) == e + rest;
    assert (e + rest)[1..] == e[1..] + rest;
    AcceptsInside(e[1..], rest);
    if |es| > 1 {
      DottedIsAccepted(es[1..]);
      assert rest[1..] == Dotted(es[1..]);
      assert Dotted(es)[|e|] == '.';
    }
  }

  lemma {:induction false} AcceptedIsDotted(s: string) returns (es: seq<string>)
    requires Accepts(s, true)
    ensures es != [] && AllElements(es) && Dotted(es) == s
    ensures '.' in s ==> 2 <= |es|
    decreases |s|
  {
    var x, more := AcceptedInside(s[1..]);
    var e := [s[0]] + x;
    es := [e] + more;
    assert es[1..] == more;
    assert s == [s[0]] + s[1..];
  }

  lemma {:induction false} AcceptedInside(s: string) returns (x: string, more: seq<string>)
    requires Accepts(s, false)
    ensures forall i :: 0 <= i < |x| ==> InElement(x[i])
    ensures AllElements(more) && s == x + if more == [] then "" else "." + Dotted(more)
    decreases |s|
  {
    if s == "" {
      return "", [];
    }
    assert s == [s[0]] + s[1..];
    if s[0] == '.' {
      more := AcceptedIsDotted(s[1..]);
      x := "";
    } else {
      x, more := AcceptedInside(s[1..]);
      x := [s[0]] + x;
    }
  }

  lemma ScanMeansGrammar(name: string)
    requires |name| <= 255
    ensures '.' in name && Accepts(name, true) <==> DBusName(name)
  {
    if '.' in name && Accepts(name, true) {
      var es := AcceptedIsDotted(name);
    }
    if DBusName(name) {
      var es :| 2 <= |es| && AllElements(es) && Dotted(es) == name;
      DottedIsAccepted(es);
    }
  }

  method IsValidDBusName(name: string) returns (valid: bool)
    ensures valid <==> DBusName(name)
  {
    if |name| <= 255 {
      ScanMeansGrammar(name);
    }
    if name == "" || |name| > 255 {
      return false;
    }
    if '.' !in name {
      return false;
    }
    var expectElementStart := true;
    assert name[0..] == name;
    for i := 0 to |name|
      invariant Accepts(name, true) == Accepts(name[i..], expectElementStart)
    {
      var c := name[i];
      assert name[i..][1..] == name[i + 1..];
      if c == '.' {
        if expectElementStart {
          return false;
        }
        expectElementStart := true;
        continue;
      }
      if expectElementStart {
        if !StartsElement(c) {
          return false;
        }
        expectElementStart := false;
      } else if !InElement(c) {
        return false;
      }
    }
    return !expectElementStart;
  }

  // ---- replacing ---------------------------------------------------------------------

  predicate OccursAt(s: string, needle: string, i: int) {
    0 <= i <= |s| - |needle| && s[i..i + |needle|] == needle
  }

  ghost predicate Free(s: string, needle: string) {
    forall i :: 0 <= i <= |s| ==> !OccursAt(s, needle, i)
  }

  /** std::string::find: the first occurrence at or behind `pos`, or -1. */
  method Find(s: string, needle: string, pos: nat) returns (hit: int)
    requires pos <= |s|
    ensures hit == -1 || (pos <= hit && OccursAt(s, needle, hit))
    ensures forall i :: pos <= i <= |s| && (hit == -1 || i < hit) ==> !OccursAt(s, needle, i)
  {
    hit := pos;
    while hit + |needle| <= |s|
      invariant pos <= hit
      invariant forall i :: pos <= i < hit ==> !OccursAt(s, needle, i)
    {
      if s[hit..hit + |needle|] == needle {
        return;
      }
      hit := hit + 1;
    }
    hit := -1;
  }

  /** Every piece followed by the separator. */
  ghost function Chain(pieces: seq<string>, sep: string): string {
    if pieces == [] then "" else Chain(pieces[..|pieces| - 1], sep) + (pieces[|pieces| - 1] + sep)
  }

  /** `pieces` and `last` are what lies between the leftmost, non-overlapping
      occurrences: in a piece followed by the needle the needle occurs only there. */
  ghost predicate LeftmostPieces(pieces: seq<string>, last: string, needle: string) {
    && Free(last, needle)
    && forall p :: p in pieces ==> forall i :: 0 <= i < |p| ==> !OccursAt(p + needle, needle, i)
  }

  ghost predicate Replaced(content: string, needle: string, replacement: string, out: string) {
    exists pieces: seq<string>, last: string ::
      && LeftmostPieces(pieces, last, needle)
      && content == Chain(pieces, needle) + last
      && out == Chain(pieces, replacement) + last
  }

  lemma ChainOfNone(a: string, b: string)
    ensures Chain([], a) == Chain([], b) == ""
  {
  }

  lemma ChainSnoc(pieces: seq<string>, p: string, sep: string)
    ensures Chain(pieces + [p], sep) == Chain(pieces, sep) + (p + sep)
  {
    assert (pieces + [p])[..|pieces|] == pieces;
  }

  lemma {:induction false} ChainCons(pieces: seq<string>, sep: string)
    requires pieces != []
    ensures Chain(pieces, sep) == (pieces[0] + sep) + Chain(pieces[1..], sep)
  {
    var front, last := pieces[..|pieces| - 1], pieces[|pieces| - 1] + sep;
    if front == [] {
      assert pieces[1..] == [];
    } else {
      ChainCons(front, sep);
      assert pieces[1..] == front[1..] + [pieces[|pieces| - 1]];
      ChainSnoc(front[1..], pieces[|pieces| - 1], sep);
      hide Chain;
      assert (pieces[0] + sep) + Chain(front[1..], sep) + last == (pieces[0] + sep) + (Chain(front[1..], sep) + last);
    }
  }

  /** Where a piece and the needle begin a text, the needle first occurs behind the
      piece. */
  lemma FirstHit(p: string, needle: string, tail: string)
    requires forall i :: 0 <= i < |p| ==> !OccursAt(p + needle, needle, i)
    ensures var s := p + needle + tail;
            OccursAt(s, needle, |p|) && forall i :: 0 <= i < |p| ==> !OccursAt(s, needle, i)
  {
    var s, t := p + needle + tail, p + needle;
    assert s[..|t|] == t;
    forall i | 0 <= i <= |p| ensures OccursAt(s, needle, i) <==> OccursAt(t, needle, i) {
      assert s[i..i + |needle|] == t[i..i + |needle|];
    }
    assert t[|p|..|p| + |needle|] == needle;
  }

  lemma SamePiece(p: string, q: string, needle: string, a: string, b: string)
    requires forall i :: 0 <= i < |p| ==> !OccursAt(p + needle, needle, i)
    requires forall i :: 0 <= i < |q| ==> !OccursAt(q + needle, needle, i)
    requires p + needle + a == q + needle + b
    ensures p == q && a == b
  {
    FirstHit(p, needle, a);
    FirstHit(q, needle, b);
    var s := p + needle + a;
    assert !(|p| < |q|) && !(|q| < |p|);
    assert p == s[..|p|] && q == s[..|q|];
    assert a == s[|p| + |needle|..] && b == s[|q| + |needle|..];
  }

  lemma FirstPiece(ps: seq<string>, l: string, needle: string)
    requires LeftmostPieces(ps, l, needle) && ps != []
    ensures Chain(ps, needle) + l == ps[0] + needle + (Chain(ps[1..], needle) + l)
    ensures forall i :: 0 <= i < |ps[0]| ==> !OccursAt(ps[0] + needle, needle, i)
    ensures LeftmostPieces(ps[1..], l, needle)
  {
    hide OccursAt, Free, Chain;
    ChainCons(ps, needle);
    assert ps[0] in ps;
    assert forall p :: p in ps[1..] ==> p in ps;
  }

  /** A text can be cut at the leftmost, non-overlapping occurrences in one way only. */
  lemma {:induction false} PiecesUnique(ps: seq<string>, l: string, qs: seq<string>, m: string, needle: string)
    requires LeftmostPieces(ps, l, needle) && LeftmostPieces(qs, m, needle)
    requires Chain(ps, needle) + l == Chain(qs, needle) + m
    ensures ps == qs && l == m
  {
    assert Chain([], needle) + l == l && Chain([], needle) + m == m;
    hide OccursAt, Chain, Free;
    if ps != [] && qs != [] {
      FirstPiece(ps, l, needle);
      FirstPiece(qs, m, needle);
      var a, b := Chain(ps[1..], needle) + l, Chain(qs[1..], needle) + m;
      SamePiece(ps[0], qs[0], needle, a, b);
      PiecesUnique(ps[1..], l, qs[1..], m, needle);
      assert ps == [ps[0]] + ps[1..] && qs == [qs[0]] + qs[1..];
    } else if ps != [] {
      NotFree(ps, l, needle);
    } else if qs != [] {
      NotFree(qs, m, needle);
    }
  }

  lemma NotFree(ps: seq<string>, l: string, needle: string)
    requires LeftmostPieces(ps, l, needle) && ps != []
    ensures !Free(Chain(ps, needle) + l, needle)
  {
    FirstPiece(ps, l, needle);
    FirstHit(ps[0], needle, Chain(ps[1..], needle) + l);
  }

  /** ... so what `ReplaceAll` returns is the one and only leftmost replacement. */
  lemma ReplacedIsUnique(content: string, needle: string, replacement: string, a: string, b: string)
    requires needle != "" && Replaced(content, needle, replacement, a) && Replaced(content, needle, replacement, b)
    ensures a == b
  {
    var ps: seq<string>, l: string :|
      LeftmostPieces(ps, l, needle) && content == Chain(ps, needle) + l && a == Chain(ps, replacement) + l;
    var qs: seq<string>, m: string :|
      LeftmostPieces(qs, m, needle) && content == Chain(qs, needle) + m && b == Chain(qs, replacement) + m;
    PiecesUnique(ps, l, qs, m, needle);
  }

  lemma NextPiece(content: string, needle: string, sep: string, pieces: seq<string>, out: string, pos: nat, hit: nat)
    requires pos <= hit && OccursAt(content, needle, hit)
    requires content[..pos] == Chain(pieces, needle) && out == Chain(pieces, sep)
    ensures var p := content[pos..hit];
            content[..hit + |needle|] == Chain(pieces + [p], needle) && out + p + sep == Chain(pieces + [p], sep)
  {
    hide Chain;
    var p := content[pos..hit];
    ChainSnoc(pieces, p, needle);
    ChainSnoc(pieces, p, sep);
    UpToHit(content, needle, pos, hit);
    Grouped(out, p, sep);
  }

  lemma UpToHit(content: string, needle: string, pos: nat, hit: nat)
    requires pos <= hit && OccursAt(content, needle, hit)
    ensures content[..hit + |needle|] == content[..pos] + (content[pos..hit] + needle)
  {
    assert content[..hit + |needle|] == content[..hit] + content[hit..hit + |needle|];
    assert content[..hit] == content[..pos] + content[pos..hit];
    Grouped(content[..pos], content[pos..hit], needle);
  }

  lemma Grouped(a: string, b: string, c: string)
    ensures a + b + c == a + (b + c)
  {
  }

  method ReplaceAll(content: string, needle: string, replacement: string) returns (out: string)
    ensures if needle == "" then out == content else Replaced(content, needle, replacement, out)
  {
    if needle == "" {
      return content;
    }
    hide Chain, Free;
    assert Chain([], needle) == Chain([], replacement) == "" by { ChainOfNone(needle, replacement); }
    out := "";
    var pos := 0;
    ghost var pieces: seq<string> := [];
    while true
      invariant pos <= |content|
      invariant content[..pos] == Chain(pieces, needle) && out == Chain(pieces, replacement)
      invariant forall p :: p in pieces ==> forall i :: 0 <= i < |p| ==> !OccursAt(p + needle, needle, i)
      decreases |content| - pos
    {
      var hit := Find(content, needle, pos);
      if hit == -1 {
        LastPiece(content, needle, pos);
        assert content == content[..pos] + content[pos..];
        out := out + content[pos..];
        break;
      }
      PieceBeforeHit(content, needle, pos, hit);
      NextPiece(content, needle, replacement, pieces, out, pos, hit);
      out := out + content[pos..hit] + replacement;
      pieces := pieces + [content[pos..hit]];
      pos := hit + |needle|;
    }
  }

  lemma LastPiece(s: string, needle: string, pos: nat)
    requires pos <= |s|
    requires forall i :: pos <= i <= |s| ==> !OccursAt(s, needle, i)
    ensures Free(s[pos..], needle)
  {
    var t := s[pos..];
    forall i | 0 <= i <= |t| ensures !OccursAt(t, needle, i) {
      if i + |needle| <= |t| {
        assert s[pos + i..pos + i + |needle|] == t[i..i + |needle|];
      }
      assert !OccursAt(s, needle, pos + i);
    }
  }

  lemma SliceOfSlice(s: string, a: nat, b: nat, i: nat, j: nat)
    requires i <= j && a + j <= b <= |s|
    ensures s[a..b][i..j] == s[a + i..a + j]
  {
    var x, y := s[a..b][i..j], s[a + i..a + j];
    assert |x| == |y|;
    assert forall k :: 0 <= k < |x| ==> x[k] == s[a..b][i + k] == s[a + i + k] == y[k];
  }

  lemma PieceBeforeHit(s: string, needle: string, pos: nat, hit: nat)
    requires pos <= hit && OccursAt(s, needle, hit)
    requires forall i :: pos <= i < hit ==> !OccursAt(s, needle, i)
    ensures forall i :: 0 <= i < hit - pos ==> !OccursAt(s[pos..hit] + needle, needle, i)
  {
    var t := s[pos..hit] + needle;
    assert t == s[pos..hit + |needle|];
    forall i | 0 <= i < hit - pos ensures !OccursAt(t, needle, i) {
      SliceOfSlice(s, pos, hit + |needle|, i, i + |needle|);
      assert !OccursAt(s, needle, pos + i);
    }
  }

  // ---- what staging guarantees ---------------------------------------------------------

  /** A text with a '.' and without '@' between two placeholder-free texts: the
      placeholder can begin or end neither in it, nor reach over it. */
  lemma NoPlaceholderAcross(p: string, r: string, tail: string)
    requires Free(p, PLACEHOLDER) && Free(tail, PLACEHOLDER)
    requires '.' in r && '@' !in r
    ensures Free(p + r + tail, PLACEHOLDER)
  {
    var s, n := p + r + tail, |PLACEHOLDER|;
    var dot :| 0 <= dot < |r| && r[dot] == '.';
    assert PLACEHOLDER[0] == PLACEHOLDER[n - 1] == '@' && '.' !in PLACEHOLDER;
    forall i | 0 <= i <= |s| ensures !OccursAt(s, PLACEHOLDER, i) {
      if i + n <= |p| {
        assert s[i..i + n] == p[i..i + n];
        assert !OccursAt(p, PLACEHOLDER, i);
      } else if |p| + |r| <= i {
        var j := i - |p| - |r|;
        if j + n <= |tail| {
          assert s[i..i + n] == tail[j..j + n];
        }
        assert !OccursAt(tail, PLACEHOLDER, j);
      } else if i + n <= |s| {
        var k := if |p| <= i then 0 else if i + n <= |p| + |r| then n - 1 else |p| + dot - i;
        assert s[i..i + n][k] == s[i + k] && s[i + k] == (p + r)[i + k] == r[i + k - |p|];
        assert r[i + k - |p|] in r;
        assert PLACEHOLDER[k] in PLACEHOLDER;
      }
    }
  }

  lemma {:induction false} ChainIsFree(pieces: seq<string>, r: string, tail: string)
    requires forall p :: p in pieces ==> Free(p, PLACEHOLDER)
    requires Free(tail, PLACEHOLDER)
    requires '.' in r && '@' !in r
    ensures Free(Chain(pieces, r) + tail, PLACEHOLDER)
  {
    if pieces == [] {
      assert Chain(pieces, r) + tail == tail;
    } else {
      var front, p := pieces[..|pieces| - 1], pieces[|pieces| - 1];
      NoPlaceholderAcross(p, r, tail);
      ChainIsFree(front, r, p + r + tail);
      assert Chain(pieces, r) + tail == Chain(front, r) + (p + r + tail);
    }
  }

  lemma NamesHaveDotsAndNoAt(name: string)
    requires DBusName(name)
    ensures '.' in name && '@' !in name
  {
    ScanMeansGrammar(name);
    AcceptedHasNoAt(name, true);
  }

  lemma {:induction false} AcceptedHasNoAt(s: string, start: bool)
    requires Accepts(s, start)
    ensures '@' !in s
  {
    if s != "" {
      AcceptedHasNoAt(s[1..], s[0] == '.');
      assert s == [s[0]] + s[1..];
    }
  }

  lemma FreePiece(p: string, needle: string)
    requires needle != "" && forall i :: 0 <= i < |p| ==> !OccursAt(p + needle, needle, i)
    ensures Free(p, needle)
  {
    forall i | 0 <= i <= |p| ensures !OccursAt(p, needle, i) {
      if i + |needle| <= |p| {
        assert (p + needle)[i..i + |needle|] == p[i..i + |needle|];
        assert !OccursAt(p + needle, needle, i);
      }
    }
  }

  lemma ChainHasNeedle(pieces: seq<string>, last: string, needle: string)
    requires pieces != []
    ensures !Free(Chain(pieces, needle) + last, needle)
  {
    var s, at := Chain(pieces, needle) + last, |Chain(pieces, needle)| - |needle|;
    assert s[at..at + |needle|] == needle;
    assert OccursAt(s, needle, at);
  }

  /** After staging no placeholder is left, not even one pieced together from both
      sides of a replacement. */
  lemma PlaceholderIsGone(content: string, name: string, out: string)
    requires DBusName(name) && Replaced(content, PLACEHOLDER, name, out)
    ensures Free(out, PLACEHOLDER)
  {
    var pieces, last :| LeftmostPieces(pieces, last, PLACEHOLDER)
                     && content == Chain(pieces, PLACEHOLDER) + last && out == Chain(pieces, name) + last;
    forall p | p in pieces ensures Free(p, PLACEHOLDER) {
      FreePiece(p, PLACEHOLDER);
    }
    NamesHaveDotsAndNoAt(name);
    ChainIsFree(pieces, name, last);
  }

  /** Where there is no needle, nothing is replaced. */
  lemma FreeIsKept(content: string, needle: string, replacement: string, out: string)
    requires Free(content, needle) && Replaced(content, needle, replacement, out)
    ensures out == content
  {
    var pieces, last :| LeftmostPieces(pieces, last, needle)
                     && content == Chain(pieces, needle) + last && out == Chain(pieces, replacement) + last;
    if pieces != [] {
      ChainHasNeedle(pieces, last, needle);
    }
  }

  /** Stage the bundle for a service name; staging the result again, for any
      name, would change nothing. */
  method StageKwinscript(content: string, name: string) returns (out: string)
    requires DBusName(name)  // checked when the configuration is loaded
    ensures Replaced(content, PLACEHOLDER, name, out) && Free(out, PLACEHOLDER)
    ensures forall other, again :: Replaced(out, PLACEHOLDER, other, again) ==> again == out
  {
    out := ReplaceAll(content, PLACEHOLDER, name);
    PlaceholderIsGone(content, name, out);
    forall other, again | Replaced(out, PLACEHOLDER, other, again) ensures again == out {
      FreeIsKept(out, PLACEHOLDER, other, again);
    }
  }

  /** The name's '.' matters: without one, what surrounds a placeholder can close
      up to a new one. */
  lemma UndottedNameCanLeak(before: string, after: string)
    requires before == "@DAEMON_DBUS_" && after == "ICE@"
    ensures before + "SERV" + after == PLACEHOLDER
    ensures Replaced(before + PLACEHOLDER + after, PLACEHOLDER, "SERV", PLACEHOLDER)
  {
    OnlyBehind(before);
    TooShort(after);
    hide OccursAt, Free, Replaced;
    OnePiece(before, after, PLACEHOLDER, "SERV");
  }

  /** A text with a single occurrence of the needle. */
  lemma OnePiece(before: string, after: string, needle: string, replacement: string)
    requires Free(after, needle)
    requires forall i :: 0 <= i < |before| ==> !OccursAt(before + needle, needle, i)
    ensures Replaced(before + needle + after, needle, replacement, before + replacement + after)
  {
    hide OccursAt, Free;
    assert Chain([before], needle) + after == before + needle + after by {
      ChainSnoc([], before, needle);
      assert [] + [before] == [before];
    }
    assert Chain([before], replacement) + after == before + replacement + after by {
      ChainSnoc([], before, replacement);
      assert [] + [before] == [before];
    }
    assert LeftmostPieces([before], after, needle);
  }

  lemma TooShort(s: string)
    requires |s| < |PLACEHOLDER|
    ensures Free(s, PLACEHOLDER)
  {
  }

  lemma OnlyBehind(before: string)
    requires before == "@DAEMON_DBUS_"
    ensures forall i :: 0 <= i < |before| ==> !OccursAt(before + PLACEHOLDER, PLACEHOLDER, i)
  {
    var t := before + PLACEHOLDER;
    forall i | 0 <= i < |before| ensures !OccursAt(t, PLACEHOLDER, i) {
      var w := t[i..i + |PLACEHOLDER|];
      assert w[0] == before[i] && w[13 - i] == t[13] == '@';
      if i == 0 {
        assert PLACEHOLDER[13] != '@';
      } else {
        assert before[i] != '@';
      }
    }
  }
}
