/**
  split_path of include/fr-lua/lua-wrapper.hpp: an object path with backslash
  escapes and single quotes, cut into elements at the dots. The string is what
  stands before its terminating zero.
  */
module SplitPath {
  import opened Common

  datatype Element = Element(name: string, quoted: bool) {
    function With(c: char): Element { this.(name := name + [c]) }
    function AsString(): Element { this.(quoted := true) }
  }

  const NOTHING := Element("", false)

  // The cursor steps over the terminating zero and goes on reading behind it.
  datatype Error = ReadsPastEnd

  type Elements = Result<seq<Element>, Error>

  function Prepend(done: seq<Element>, r: Elements): Elements {
    match r case Ok(es) => Ok(done + es) case Err(e) => Err(e)
  }

  /** The elements of s, the first of which begins with what is collected in next. */
  function Scan(s: string, next: Element): Elements
    decreases |s|
  {
    if s == "" then Ok(if next.name == "" then [] else [next])
    else if s[0] == '\'' then ScanQuoted(s[1..], next.AsString())
    else if s[0] == '.' then Prepend([next], Scan(s[1..], NOTHING))
    else if s[0] != '\\' then Scan(s[1..], next.With(s[0]))
    else if |s| == 1 then Err(ReadsPastEnd)
    else Scan(s[2..], next.With(s[1]))
  }

  /** The same from within quotes. */
  function ScanQuoted(s: string, next: Element): Elements
    decreases |s|
  {
    if s == "" || s == "\\" then Err(ReadsPastEnd)
    else if s[0] == '\'' then Scan(s[1..], next)
    else if s[0] == '\\' then ScanQuoted(s[2..], next.With(s[1]))
    else ScanQuoted(s[1..], next.With(s[0]))
  }

  function Split(path: string): Elements { Scan(path, NOTHING) }

  /** Every quote is closed and no backslash stands last: a backslash takes the next character, a quote toggles. */
  predicate Finished(s: string, quoted: bool)
    decreases |s|
  {
    if s == "" then !quoted
    else if s[0] == '\\' then |s| > 1 && Finished(s[2..], quoted)
    else Finished(s[1..], if s[0] == '\'' then !quoted else quoted)
  }

  lemma {:induction false} ScanFinishes(s: string, next: Element)
    ensures Scan(s, next).Ok? <==> Finished(s, false)
    decreases |s|
  {
    if s != "" {
      if s[0] == '\'' {
        ScanQuotedFinishes(s[1..], next.AsString());
      } else if s[0] == '.' {
        ScanFinishes(s[1..], NOTHING);
      } else if s[0] != '\\' {
        ScanFinishes(s[1..], next.With(s[0]));
      } else if |s| > 1 {
        ScanFinishes(s[2..], next.With(s[1]));
      }
    }
  }

  lemma {:induction false} ScanQuotedFinishes(s: string, next: Element)
    ensures ScanQuoted(s, next).Ok? <==> Finished(s, true)
    decreases |s|
  {
    if s != "" {
      assert s == "\\" <==> |s| == 1 && s[0] == '\\';
      if s[0] == '\'' {
        ScanFinishes(s[1..], next);
      } else if s[0] != '\\' {
        ScanQuotedFinishes(s[1..], next.With(s[0]));
      } else if |s| > 1 {
        ScanQuotedFinishes(s[2..], next.With(s[1]));
      }
    }
  }

  /** The exact condition, for every string: the cursor stays inside it if and only if the string is finished. */
  lemma StaysInsideExactly(path: string)
    ensures Split(path).Ok? <==> Finished(path, false)
  {
    ScanFinishes(path, NOTHING);
  }

  // ---------------------------------------------------------------------
  // The loops
  // ---------------------------------------------------------------------

  /** The inner loop, from behind the opening quote; stops on the closing one, or past the end. */
  method Quoted(str: string, start: nat, begun: Element) returns (i: nat, next: Element)
    requires start <= |str|
    ensures start <= i
    ensures if i < |str| then str[i] == '\'' && ScanQuoted(str[start..], begun) == Scan(str[i + 1..], next)
            else ScanQuoted(str[start..], begun) == Err(ReadsPastEnd)
  {
    i, next := start, begun;
    while i < |str|
      invariant start <= i <= |str| && ScanQuoted(str[start..], begun) == ScanQuoted(str[i..], next)
    {
      if str[i] == '\\' {
        i := i + 1;
        if i == |str| {
          assert str[i - 1..] == "\\";
          return;
        }
      } else if str[i] == '\'' {
        return;
      }
      next := next.With(str[i]);
      i := i + 1;
    }
  }

  method SplitPath(str: string) returns (res: Elements)
    ensures res == Split(str)
  {
    var tmp: seq<Element> := [];
    var next := NOTHING;
    var i := 0;
    assert str[0..] == str;
    PrependNothing(Split(str));
    while i < |str|
      invariant 0 <= i <= |str|
      invariant Split(str) == Prepend(tmp, Scan(str[i..], next))
    {
      if str[i] == '\'' {
        i, next := Quoted(str, i + 1, next.AsString());
        if i >= |str| {
          return Err(ReadsPastEnd);
        }
      } else if str[i] == '.' {
        PrependTwice(tmp, next, Scan(str[i + 1..], NOTHING));
        tmp, next := tmp + [next], NOTHING;
      } else {
        if str[i] == '\\' {
          i := i + 1;
          if i == |str| {
            return Err(ReadsPastEnd);
          }
        }
        next := next.With(str[i]);
      }
      i := i + 1;
    }
    assert str[i..] == "" && tmp + [] == tmp;
    if next.name != "" {
      tmp := tmp + [next];
    }
    res := Ok(tmp);
  }

  lemma PrependTwice(a: seq<Element>, e: Element, r: Elements)
    ensures Prepend(a, Prepend([e], r)) == Prepend(a + [e], r)
  {
    if r.Ok? { assert a + ([e] + r.value) == a + [e] + r.value; }
  }

  // ---------------------------------------------------------------------
  // Ways to write a path
  // ---------------------------------------------------------------------

  /** A name and how to write it: in quotes or not, and which characters get a backslash they do not need. */
  datatype Spelling = Spelling(e: Element, marks: seq<bool>) {
    predicate Valid() { e.name != "" && |marks| == |e.name| }
  }

  predicate MustEscape(c: char, quoted: bool) { c == '\'' || c == '\\' || (c == '.' && !quoted) }

  /** One character, with or without its backslash. */
  function Inked(c: char, mark: bool, quoted: bool): string {
    if mark || MustEscape(c, quoted) then ['\\', c] else [c]
  }

  function Escaped(name: string, marks: seq<bool>, quoted: bool): string
    requires |marks| == |name|
  {
    if name == "" then ""
    else
      Inked(name[0], marks[0], quoted) + Escaped(name[1..], marks[1..], quoted)
  }

  function Written(p: Spelling): string
    requires p.Valid()
  {
    var text := Escaped(p.e.name, p.marks, p.e.quoted);
    if p.e.quoted then "'" + text + "'" else text
  }

  function WrittenPath(ps: seq<Spelling>): string
    requires forall i :: 0 <= i < |ps| ==> ps[i].Valid()
  {
    if ps == [] then ""
    else Written(ps[0]) + (if |ps| == 1 then "" else "." + WrittenPath(ps[1..]))
  }

  function Names(ps: seq<Spelling>): seq<Element> {
    if ps == [] then [] else [ps[0].e] + Names(ps[1..])
  }

  // ---------------------------------------------------------------------
  // split_path undoes them all
  // ---------------------------------------------------------------------

  lemma ScanInked(c: char, mark: bool, tail: string, next: Element)
    ensures Scan(Inked(c, mark, false) + tail, next) == Scan(tail, next.With(c))
    ensures ScanQuoted(Inked(c, mark, true) + tail, next) == ScanQuoted(tail, next.With(c))
  {
    assert (Inked(c, mark, false) + tail)[|Inked(c, mark, false)|..] == tail;
    assert (Inked(c, mark, true) + tail)[|Inked(c, mark, true)|..] == tail;
  }

  lemma WithFirst(next: Element, name: string)
    requires name != ""
    ensures next.With(name[0]).name + name[1..] == next.name + name
  {
  }

  lemma {:induction false} ScanEscaped(name: string, marks: seq<bool>, rest: string, next: Element)
    requires |marks| == |name|
    ensures Scan(Escaped(name, marks, false) + rest, next) == Scan(rest, next.(name := next.name + name))
    decreases |name|
  {
    if name == "" {
      assert "" + rest == rest && next.name + name == next.name;
    } else {
      var tail := Escaped(name[1..], marks[1..], false);
      assert Inked(name[0], marks[0], false) + tail + rest == Inked(name[0], marks[0], false) + (tail + rest);
      ScanInked(name[0], marks[0], tail + rest, next);
      ScanEscaped(name[1..], marks[1..], rest, next.With(name[0]));
      WithFirst(next, name);
    }
  }

  lemma {:induction false} ScanQuotedEscaped(name: string, marks: seq<bool>, rest: string, next: Element)
    requires |marks| == |name|
    ensures ScanQuoted(Escaped(name, marks, true) + rest, next) == ScanQuoted(rest, next.(name := next.name + name))
    decreases |name|
  {
    if name == "" {
      assert "" + rest == rest && next.name + name == next.name;
    } else {
      var tail := Escaped(name[1..], marks[1..], true);
      assert Inked(name[0], marks[0], true) + tail + rest == Inked(name[0], marks[0], true) + (tail + rest);
      ScanInked(name[0], marks[0], tail + rest, next);
      ScanQuotedEscaped(name[1..], marks[1..], rest, next.With(name[0]));
      WithFirst(next, name);
    }
  }

  lemma ScanWritten(p: Spelling, rest: string)
    requires p.Valid()
    ensures Scan(Written(p) + rest, NOTHING) == Scan(rest, p.e)
  {
    assert "" + p.e.name == p.e.name;
    if p.e.quoted {
      var text := Escaped(p.e.name, p.marks, true);
      assert Written(p) + rest == "'" + (text + ("'" + rest));
      ScanQuotedEscaped(p.e.name, p.marks, "'" + rest, NOTHING.AsString());
    } else {
      ScanEscaped(p.e.name, p.marks, rest, NOTHING);
    }
  }

  /** After a written path, the last name is still being collected. */
  lemma {:induction false} ScanWrittenPath(ps: seq<Spelling>, rest: string)
    requires ps != [] && forall i :: 0 <= i < |ps| ==> ps[i].Valid()
    ensures Scan(WrittenPath(ps) + rest, NOTHING) == Prepend(Names(ps[..|ps| - 1]), Scan(rest, ps[|ps| - 1].e))
  {
    if |ps| == 1 {
      assert WrittenPath(ps) + rest == Written(ps[0]) + rest;
      ScanWritten(ps[0], rest);
      PrependNothing(Scan(rest, ps[0].e));
    } else {
      ScanWrittenStep(ps, rest);
      ScanWrittenPath(ps[1..], rest);
      PrependStep(ps, Scan(rest, ps[|ps| - 1].e));
    }
  }

  lemma ScanWrittenStep(ps: seq<Spelling>, rest: string)
    requires |ps| > 1 && forall i :: 0 <= i < |ps| ==> ps[i].Valid()
    ensures Scan(WrittenPath(ps) + rest, NOTHING) == Prepend([ps[0].e], Scan(WrittenPath(ps[1..]) + rest, NOTHING))
  {
    WrittenStep(ps, rest);
    ScanWritten(ps[0], "." + (WrittenPath(ps[1..]) + rest));
    ScanDot(WrittenPath(ps[1..]) + rest, ps[0].e);
  }

  lemma PrependStep(ps: seq<Spelling>, r: Elements)
    requires |ps| > 1
    ensures Prepend([ps[0].e], Prepend(Names(ps[1..][..|ps| - 2]), r)) == Prepend(Names(ps[..|ps| - 1]), r)
  {
    NamesFront(ps);
    PrependTwiceMore(ps[0].e, Names(ps[1..][..|ps| - 2]), r);
  }

  lemma WrittenStep(ps: seq<Spelling>, rest: string)
    requires |ps| > 1 && forall i :: 0 <= i < |ps| ==> ps[i].Valid()
    ensures WrittenPath(ps) + rest == Written(ps[0]) + ("." + (WrittenPath(ps[1..]) + rest))
  {
    Regroup(Written(ps[0]), WrittenPath(ps[1..]), rest);
  }

  lemma Regroup(a: string, b: string, rest: string)
    ensures a + ("." + b) + rest == a + ("." + (b + rest))
  {
  }

  lemma ScanDot(rest: string, e: Element)
    ensures Scan("." + rest, e) == Prepend([e], Scan(rest, NOTHING))
  {
    assert ("." + rest)[1..] == rest;
  }

  lemma NamesFront(ps: seq<Spelling>)
    requires |ps| > 1
    ensures Names(ps[..|ps| - 1]) == [ps[0].e] + Names(ps[1..][..|ps| - 2])
  {
    assert ps[1..][..|ps| - 2] == ps[..|ps| - 1][1..];
  }

  lemma PrependNothing(r: Elements)
    ensures Prepend([], r) == r
  {
    if r.Ok? { assert [] + r.value == r.value; }
  }

  lemma PrependTwiceMore(e: Element, b: seq<Element>, r: Elements)
    ensures Prepend([e], Prepend(b, r)) == Prepend([e] + b, r)
  {
    if r.Ok? { assert [e] + (b + r.value) == [e] + b + r.value; }
  }

  lemma {:induction false} NamesSnoc(ps: seq<Spelling>)
    requires ps != []
    ensures Names(ps[..|ps| - 1]) + [ps[|ps| - 1].e] == Names(ps)
  {
    if |ps| > 1 {
      NamesSnoc(ps[1..]);
      assert ps[1..][..|ps| - 2] == ps[..|ps| - 1][1..];
    }
  }

  /**
    Main theorem: any list of names that are not empty, however each is
    escaped or quoted, comes back exactly, the quoted ones marked as strings.
    A dot after the last name makes no difference.
    */
  lemma {:induction false} SplitUndoesWriting(ps: seq<Spelling>)
    requires forall i :: 0 <= i < |ps| ==> ps[i].Valid()
    ensures Split(WrittenPath(ps)) == Ok(Names(ps))
    ensures ps != [] ==> Split(WrittenPath(ps) + ".") == Ok(Names(ps))
  {
    if ps != [] {
      ScanWrittenPath(ps, "");
      assert WrittenPath(ps) + "" == WrittenPath(ps);
      ScanWrittenPath(ps, ".");
      NamesSnoc(ps);
      ScanEnd(ps[|ps| - 1].e);
    }
  }

  lemma ScanEnd(e: Element)
    requires e.name != ""
    ensures Scan("", e) == Ok([e]) && Scan(".", e) == Ok([e])
  {
    assert Scan("", NOTHING) == Ok([]);
    assert "."[1..] == "" && [e] + [] == [e];
  }

  /** So a backslash or a quote left open after any written path sends the cursor past the end. */
  lemma {:induction false} OpenEndReadsPastEnd(ps: seq<Spelling>, name: string, marks: seq<bool>)
    requires ps != [] && (forall i :: 0 <= i < |ps| ==> ps[i].Valid()) && |marks| == |name|
    ensures Split(WrittenPath(ps) + "\\") == Err(ReadsPastEnd)
    ensures Split(WrittenPath(ps) + ("'" + Escaped(name, marks, true))) == Err(ReadsPastEnd)
  {
    ScanWrittenPath(ps, "\\");
    ScanWrittenPath(ps, "'" + Escaped(name, marks, true));
    QuoteLeftOpen(name, marks, ps[|ps| - 1].e.AsString());
  }

  lemma QuoteLeftOpen(name: string, marks: seq<bool>, next: Element)
    requires |marks| == |name|
    ensures ScanQuoted(Escaped(name, marks, true), next) == Err(ReadsPastEnd)
  {
    ScanQuotedEscaped(name, marks, "", next);
    assert Escaped(name, marks, true) + "" == Escaped(name, marks, true);
  }
}
