/**
 * The template file format: a `SENDGRID-TEMPLATE` header line, the template name,
 * a `######` separator line, the plain body, the separator again and the html body.
 * `WriteTo` writes a template in that format and `Parse` reads it back; `Encode` and
 * `Decode` are their specifications.
 */
module Manage {
  import opened Text

  const TemplateHeader: string := "SENDGRID-TEMPLATE"
  const TemplateHeaderSep: string := "######"

  datatype Template = Template(name: string, plainBody: string, htmlBody: string)

  datatype TemplateError =
    | HeaderInvalidFormat
    | HeaderInvalidStart(start: string)
    | HeaderInvalidName
    | HeaderInvalidEnd(end: string)
    | BodyPlainUnfinished

  datatype Result<T> = Ok(value: T) | Err(error: TemplateError)

  predicate EndsWithNewline(s: string) {
    |s| > 0 && s[|s| - 1] == '\n'
  }

  // ---------------------------------------------------------------- writing

  /** The text `WriteTo` produces for `t`. */
  function Encode(t: Template): string {
    TemplateHeader + "\n" + t.name + "\n" + TemplateHeaderSep + "\n"
    + t.plainBody + (if EndsWithNewline(t.plainBody) then "" else "\n")
    + TemplateHeaderSep + "\n"
    + t.htmlBody + "\n"
  }

  /** The output stream a template is written to, as the text written so far. */
  class Writer {
    var written: string

    constructor ()
      ensures written == ""
    {
      written := "";
    }

    method WriteAll(s: string)
      modifies this
      ensures written == old(written) + s
    {
      written := written + s;
    }
  }

  /** Writes `t` to `out` piece by piece; the plain body gets a '\n' only when it lacks one. */
  method WriteTo(t: Template, out: Writer)
    modifies out
    ensures out.written == old(out.written) + Encode(t)
  {
    ghost var start := out.written;
    out.WriteAll(TemplateHeader);
    ghost var done := TemplateHeader;
    Appended(start, done, "\n");
    out.WriteAll("\n");
    done := done + "\n";
    Appended(start, done, t.name);
    out.WriteAll(t.name);
    done := done + t.name;
    Appended(start, done, "\n");
    out.WriteAll("\n");
    done := done + "\n";
    Appended(start, done, TemplateHeaderSep);
    out.WriteAll(TemplateHeaderSep);
    done := done + TemplateHeaderSep;
    Appended(start, done, "\n");
    out.WriteAll("\n");
    done := done + "\n";
    Appended(start, done, t.plainBody);
    out.WriteAll(t.plainBody);
    done := done + t.plainBody;
    var newline := if EndsWithNewline(t.plainBody) then "" else "\n";
    Appended(start, done, newline);
    if !EndsWithNewline(t.plainBody) {
      out.WriteAll("\n");
    } else {
      assert out.written == start + done + "";
    }
    done := done + newline;
    Appended(start, done, TemplateHeaderSep);
    out.WriteAll(TemplateHeaderSep);
    done := done + TemplateHeaderSep;
    Appended(start, done, "\n");
    out.WriteAll("\n");
    done := done + "\n";
    Appended(start, done, t.htmlBody);
    out.WriteAll(t.htmlBody);
    done := done + t.htmlBody;
    Appended(start, done, "\n");
    out.WriteAll("\n");
    done := done + "\n";
    assert done == Encode(t);
  }

  lemma Appended(a: string, b: string, c: string)
    ensures a + b + c == a + (b + c)
  {
  }

  /** `s` without one trailing '\n', if it has one. */
  function Chomp(s: string): string {
    if EndsWithNewline(s) then s[..|s| - 1] else s
  }

  /**
   * The written text starts with the header, the name and the separator, each on its
   * own line, ends with '\n', and puts exactly one '\n' between the plain body (less a
   * '\n' it already ended with) and the second separator.
   */
  lemma EncodeLayout(t: Template)
    ensures var e := Encode(t);
      var head := TemplateHeader + "\n" + t.name + "\n" + TemplateHeaderSep + "\n";
      |e| > |head| && e[..|head|] == head && e[|e| - 1] == '\n' &&
      e[|head|..] == Chomp(t.plainBody) + "\n" + TemplateHeaderSep + "\n" + t.htmlBody + "\n"
  {
    var e := Encode(t);
    var head := TemplateHeader + "\n" + t.name + "\n" + TemplateHeaderSep + "\n";
    var p := t.plainBody;
    var rest := Chomp(p) + "\n" + TemplateHeaderSep + "\n" + t.htmlBody + "\n";
    if EndsWithNewline(p) {
      assert p == Chomp(p) + "\n";
      assert e == head + p + "" + TemplateHeaderSep + "\n" + t.htmlBody + "\n";
    } else {
      assert e == head + p + "\n" + TemplateHeaderSep + "\n" + t.htmlBody + "\n";
    }
    assert e == head + rest;
    assert e[..|head|] == head;
    assert e[|head|..] == rest;
  }

  /** A plain body already ending in '\n' is written as if the '\n' were not there. */
  lemma EncodeNewlineIdempotent(t: Template, p: string)
    requires !EndsWithNewline(p)
    ensures Encode(t.(plainBody := p + "\n")) == Encode(t.(plainBody := p))
  {
    var p' := p + "\n";
    assert EndsWithNewline(p');
    var head := TemplateHeader + "\n" + t.name + "\n" + TemplateHeaderSep + "\n";
    var tail := TemplateHeaderSep + "\n" + t.htmlBody + "\n";
    assert Encode(t.(plainBody := p')) == head + p' + "" + tail;
    assert Encode(t.(plainBody := p)) == head + p + "\n" + tail;
  }

  // ---------------------------------------------------------------- reading

  /** `ls` without its leading empty lines. */
  function DropLeadingEmpty(ls: seq<string>): (r: seq<string>)
    ensures r == [] || r[0] != ""
  {
    if |ls| > 0 && ls[0] == "" then DropLeadingEmpty(ls[1..]) else ls
  }

  /** Exactly the leading empty lines go: what is left is a suffix, and all before it is empty. */
  lemma {:induction false} DropLeadingEmptySuffix(ls: seq<string>)
    ensures var r := DropLeadingEmpty(ls);
      |r| <= |ls| && r == ls[|ls| - |r|..] &&
      forall j :: 0 <= j < |ls| - |r| ==> ls[j] == ""
  {
    if |ls| > 0 && ls[0] == "" {
      DropLeadingEmptySuffix(ls[1..]);
      var r := DropLeadingEmpty(ls);
      assert ls[1..][|ls| - 1 - |r|..] == ls[|ls| - |r|..];
      forall j | 0 <= j < |ls| - |r| ensures ls[j] == "" {
        if j > 0 {
          assert ls[j] == ls[1..][j - 1];
        }
      }
    }
  }

  /**
   * What `Parse` returns: the first three lines are checked in order, then the
   * lines of the rest are read up to the first separator line; the plain body is
   * those lines without the leading empty ones, the html body all later lines.
   */
  function Decode(content: string): Result<Template> {
    var v := SplitN(content, 4);
    if |v| != 4 then Err(HeaderInvalidFormat)
    else if v[0] != TemplateHeader then Err(HeaderInvalidStart(v[0]))
    else if v[1] == "" then Err(HeaderInvalidName)
    else if v[2] != TemplateHeaderSep then Err(HeaderInvalidEnd(v[2]))
    else
      var ls := Lines(v[3]);
      var k := IndexOf(ls, TemplateHeaderSep);
      if k == |ls| then Err(BodyPlainUnfinished)
      else Ok(Template(v[1], Join(DropLeadingEmpty(ls[..k])), Join(ls[k + 1..])))
  }

  lemma DropLeadingEmptySnoc(xs: seq<string>, l: string)
    ensures DropLeadingEmpty(xs + [l]) ==
      if DropLeadingEmpty(xs) == [] then (if l == "" then [] else [l])
      else DropLeadingEmpty(xs) + [l]
    decreases |xs|
  {
    if |xs| > 0 && xs[0] == "" {
      assert (xs + [l])[1..] == xs[1..] + [l];
      DropLeadingEmptySnoc(xs[1..], l);
    } else if |xs| == 0 {
      assert xs + [l] == [l];
      assert [l][1..] == [];
    }
  }

  lemma JoinNonEmpty(ls: seq<string>)
    requires |ls| >= 1 && ls[0] != ""
    ensures Join(ls) != ""
  {
    if |ls| > 1 {
      assert Join(ls) == ls[0] + "\n" + Join(ls[1..]);
      assert |Join(ls)| >= |ls[0]|;
    }
  }

  /**
   * The first loop of the reader: takes lines up to the first separator line, putting
   * '\n' between them once the body is non-empty. `next` is the index after the
   * separator; `found` is false when the lines ran out first.
   */
  method ReadPlainBody(lines: seq<string>) returns (found: bool, plainBody: string, next: nat)
    ensures var k := IndexOf(lines, TemplateHeaderSep);
      found == (k < |lines|) &&
      (found ==> next == k + 1 && plainBody == Join(DropLeadingEmpty(lines[..k])))
  {
    ghost var k := IndexOf(lines, TemplateHeaderSep);
    var i := 0;
    plainBody := "";
    while true
      invariant 0 <= i <= k && i <= |lines|
      invariant plainBody == Join(DropLeadingEmpty(lines[..i]))
      decreases |lines| - i
    {
      if i == |lines| {
        return false, plainBody, i;
      }
      var l := lines[i];
      i := i + 1;
      if l == TemplateHeaderSep {
        break;
      }
      ghost var before := DropLeadingEmpty(lines[..i - 1]);
      assert lines[..i] == lines[..i - 1] + [l];
      DropLeadingEmptySnoc(lines[..i - 1], l);
      if before != [] {
        JoinNonEmpty(before);
        JoinSnoc(before, l);
      }
      if plainBody != "" {
        plainBody := plainBody + "\n";
      }
      plainBody := plainBody + l;
      assert plainBody == Join(DropLeadingEmpty(lines[..i]));
    }
    return true, plainBody, i;
  }

  /** The second loop of the reader: every line from `from` on, with '\n' between them. */
  method ReadHtmlBody(lines: seq<string>, from: nat) returns (htmlBody: string)
    requires from <= |lines|
    ensures htmlBody == Join(lines[from..])
  {
    htmlBody := "";
    var j := from;
    while j < |lines|
      invariant from <= j <= |lines|
      invariant htmlBody == Join(lines[from..j])
    {
      if j > from {
        assert lines[from..j + 1] == lines[from..j] + [lines[j]];
        JoinSnoc(lines[from..j], lines[j]);
        htmlBody := htmlBody + "\n";
      } else {
        assert lines[from..j + 1] == [lines[j]];
      }
      htmlBody := htmlBody + lines[j];
      j := j + 1;
    }
    assert lines[from..] == lines[from..|lines|];
  }

  /** Reads a template file, checking the header lines in the order the format lists them. */
  method Parse(content: string) returns (r: Result<Template>)
    ensures r == Decode(content)
  {
    var v := SplitN(content, 4);
    if |v| != 4 {
      return Err(HeaderInvalidFormat);
    }
    if v[0] != TemplateHeader {
      return Err(HeaderInvalidStart(v[0]));
    }
    if v[1] == "" {
      return Err(HeaderInvalidName);
    }
    var name := v[1];
    if v[2] != TemplateHeaderSep {
      return Err(HeaderInvalidEnd(v[2]));
    }
    var lines := Lines(v[3]);
    var found, plainBody, next := ReadPlainBody(lines);
    if !found {
      return Err(BodyPlainUnfinished);
    }
    var htmlBody := ReadHtmlBody(lines, next);
    return Ok(Template(name, plainBody, htmlBody));
  }

  // ---------------------------------------------------------------- properties

  /**
   * Templates that come unchanged through a write and a read. The condition is
   * sufficient, not necessary: a '\r' that does not end a line also survives.
   */
  predicate Encodable(t: Template) {
    t.name != "" && '\n' !in t.name &&
    '\r' !in t.plainBody && '\r' !in t.htmlBody &&
    (t.plainBody == "" || (t.plainBody[0] != '\n' && !EndsWithNewline(t.plainBody))) &&
    TemplateHeaderSep !in Split(t.plainBody)
  }

  /** The three header lines come out of `splitn(4, "\n")` as they went in. */
  lemma SplitHeader(a: string, b: string, c: string, rest: string)
    requires '\n' !in a && '\n' !in b && '\n' !in c
    ensures SplitN(a + "\n" + b + "\n" + c + "\n" + rest, 4) == [a, b, c, rest]
  {
    var last := c + "\n" + rest;
    var middle := b + "\n" + last;
    assert a + "\n" + b + "\n" + c + "\n" + rest == a + "\n" + middle;
    assert SplitN(rest, 1) == [rest];
    SplitNFirst(c, rest, 2);
    assert SplitN(last, 2) == [c, rest];
    SplitNFirst(b, last, 3);
    assert SplitN(middle, 3) == [b, c, rest];
    SplitNFirst(a, middle, 4);
    assert SplitN(a + "\n" + middle, 4) == [a, b, c, rest];
  }

  lemma JoinHead(ls: seq<string>)
    requires |ls| >= 1
    ensures |Join(ls)| >= |ls[0]| && Join(ls)[..|ls[0]|] == ls[0]
  {
    if |ls| > 1 {
      assert Join(ls) == ls[0] + ("\n" + Join(ls[1..]));
    }
  }

  /** The text after the header block of a written `Encodable` template. */
  function Bodies(t: Template): string {
    t.plainBody + "\n" + TemplateHeaderSep + "\n" + t.htmlBody + "\n"
  }

  lemma EncodeSplit(t: Template)
    requires Encodable(t)
    ensures SplitN(Encode(t), 4) == [TemplateHeader, t.name, TemplateHeaderSep, Bodies(t)]
  {
    assert !EndsWithNewline(t.plainBody);
    assert Encode(t) == TemplateHeader + "\n" + t.name + "\n" + TemplateHeaderSep + "\n" + Bodies(t);
    SplitHeader(TemplateHeader, t.name, TemplateHeaderSep, Bodies(t));
  }

  /** A separator line between two texts splits into the pieces of both around it. */
  lemma SeparatedSplit(p: string, h: string)
    ensures Split(p + "\n" + TemplateHeaderSep + "\n" + h) == Split(p) + [TemplateHeaderSep] + Split(h)
  {
    assert '\n' !in TemplateHeaderSep;
    SplitAround(p, TemplateHeaderSep, h);
  }

  lemma BodiesLines(t: Template)
    requires '\r' !in t.plainBody && '\r' !in t.htmlBody
    ensures Lines(Bodies(t)) == Split(t.plainBody) + [TemplateHeaderSep] + Split(t.htmlBody)
  {
    var body := t.plainBody + "\n" + TemplateHeaderSep + "\n" + t.htmlBody;
    assert Bodies(t) == body + "\n";
    assert '\r' !in TemplateHeaderSep;
    assert '\r' !in body;
    LinesTerminated(body);
    SeparatedSplit(t.plainBody, t.htmlBody);
  }

  lemma PlainBack(p: string)
    requires p == "" || p[0] != '\n'
    ensures Join(DropLeadingEmpty(Split(p))) == p
  {
    SplitJoin(p);
    if p == "" {
      IndexOfAbsent(p, '\n');
      assert Split(p) == [""];
      assert DropLeadingEmpty(Split(p)) == [];
    } else {
      assert Split(p)[0] == p[..IndexOf(p, '\n')];
      assert Split(p)[0] != "";
    }
  }

  /** In the lines after the header block, the first separator line sits between the two bodies. */
  lemma BodiesSeparated(t: Template)
    requires Encodable(t)
    ensures var ls, ps := Lines(Bodies(t)), Split(t.plainBody);
      |ls| > |ps| && IndexOf(ls, TemplateHeaderSep) == |ps| &&
      ls[..|ps|] == ps && ls[|ps| + 1..] == Split(t.htmlBody)
  {
    BodiesLines(t);
    var ps, hs := Split(t.plainBody), Split(t.htmlBody);
    var ls := Lines(Bodies(t));
    IndexOfAfter(ps, TemplateHeaderSep, hs);
    assert ls[..|ps|] == ps;
    assert ls[|ps| + 1..] == hs;
  }

  /** The lines after the header block of a written template read back as its two bodies. */
  lemma BodiesDecode(t: Template)
    requires Encodable(t)
    ensures var ls := Lines(Bodies(t));
      var k := IndexOf(ls, TemplateHeaderSep);
      k < |ls| && Join(DropLeadingEmpty(ls[..k])) == t.plainBody && Join(ls[k + 1..]) == t.htmlBody
  {
    BodiesSeparated(t);
    PlainBack(t.plainBody);
    SplitJoin(t.htmlBody);
  }

  /** Past a valid header block, a separator line in the rest gives the bodies around it. */
  lemma DecodeWith(content: string, name: string, rest: string, plain: string, html: string)
    requires SplitN(content, 4) == [TemplateHeader, name, TemplateHeaderSep, rest] && name != ""
    requires var ls := Lines(rest);
      var k := IndexOf(ls, TemplateHeaderSep);
      k < |ls| && Join(DropLeadingEmpty(ls[..k])) == plain && Join(ls[k + 1..]) == html
    ensures Decode(content) == Ok(Template(name, plain, html))
  {
  }

  /** Writing an `Encodable` template and reading it back gives the template. */
  lemma RoundTrip(t: Template)
    requires Encodable(t)
    ensures Decode(Encode(t)) == Ok(t)
  {
    EncodeSplit(t);
    BodiesDecode(t);
    DecodeWith(Encode(t), t.name, Bodies(t), t.plainBody, t.htmlBody);
  }

  /** A template whose plain body has no '#' at all has no separator line in it, and round-trips. */
  lemma WithoutHashRoundTrip(t: Template)
    requires t.name != "" && '\n' !in t.name
    requires '\r' !in t.plainBody && '\r' !in t.htmlBody && '#' !in t.plainBody
    requires t.plainBody == "" || (t.plainBody[0] != '\n' && !EndsWithNewline(t.plainBody))
    ensures Decode(Encode(t)) == Ok(t)
  {
    SplitKeepsAbsent(t.plainBody, '#');
    assert '#' in TemplateHeaderSep;
    RoundTrip(t);
  }

  /** Fewer than three '\n' characters, and only then, make the header format invalid. */
  lemma DecodeFormat(s: string)
    ensures Decode(s) == Err(HeaderInvalidFormat) <==> multiset(s)['\n'] < 3
  {
    SplitNCount(s, 4);
  }

  /** A wrong first line is reported, with its text, whatever the next lines hold. */
  lemma DecodeStart(first: string, second: string, third: string, rest: string)
    requires '\n' !in first && '\n' !in second && '\n' !in third
    requires first != TemplateHeader
    ensures Decode(first + "\n" + second + "\n" + third + "\n" + rest) == Err(HeaderInvalidStart(first))
  {
    SplitHeader(first, second, third, rest);
  }

  /** After a correct first line, an empty name line is reported whatever the next lines hold. */
  lemma DecodeName(third: string, rest: string)
    requires '\n' !in third
    ensures Decode(TemplateHeader + "\n" + "" + "\n" + third + "\n" + rest) == Err(HeaderInvalidName)
  {
    SplitHeader(TemplateHeader, "", third, rest);
  }

  /** After a correct header and name, a wrong third line is reported with its text. */
  lemma DecodeEnd(name: string, third: string, rest: string)
    requires name != "" && '\n' !in name
    requires '\n' !in third && third != TemplateHeaderSep
    ensures Decode(TemplateHeader + "\n" + name + "\n" + third + "\n" + rest) == Err(HeaderInvalidEnd(third))
  {
    SplitHeader(TemplateHeader, name, third, rest);
  }

  /** After a correct header, the body is unfinished exactly when no line of it is the separator. */
  lemma DecodeUnfinished(name: string, rest: string)
    requires name != "" && '\n' !in name
    ensures Decode(TemplateHeader + "\n" + name + "\n" + TemplateHeaderSep + "\n" + rest) == Err(BodyPlainUnfinished)
      <==> TemplateHeaderSep !in Lines(rest)
  {
    SplitHeader(TemplateHeader, name, TemplateHeaderSep, rest);
    var ls := Lines(rest);
    var k := IndexOf(ls, TemplateHeaderSep);
    if k < |ls| {
      assert ls[k] in ls;
    } else {
      IndexOfAbsent(ls, TemplateHeaderSep);
    }
    assert TemplateHeaderSep !in ls ==> k == |ls| by {
      if TemplateHeaderSep !in ls {
        IndexOfAbsent(ls, TemplateHeaderSep);
      }
    }
  }

  /** A file that stops right after the header block has an unfinished plain body. */
  lemma DecodeHeaderOnly()
    ensures Decode("SENDGRID-TEMPLATE\nn\n######\n") == Err(BodyPlainUnfinished)
  {
    assert "SENDGRID-TEMPLATE\nn\n######\n" == TemplateHeader + "\n" + "n" + "\n" + TemplateHeaderSep + "\n" + "";
    LinesEmpty();
    DecodeUnfinished("n", "");
  }

  /** A separator line with a trailing '\r' and no '\n' is read as the separator. */
  lemma LinesSeparatorCr()
    ensures Lines(TemplateHeaderSep + "\r") == [TemplateHeaderSep]
  {
    var rest := TemplateHeaderSep + "\r";
    assert '\n' !in rest;
    IndexOfAbsent(rest, '\n');
    assert Split(rest) == [rest];
    assert StripCr(rest) == TemplateHeaderSep;
  }

  /**
   * A final separator line with a '\r' and no '\n' after it still ends the plain
   * body: `lines()` strips the '\r' of the last line too.
   */
  lemma DecodeFinalCr()
    ensures Decode("SENDGRID-TEMPLATE\nn\n######\n######\r") == Ok(Template("n", "", ""))
  {
    assert "SENDGRID-TEMPLATE\nn\n######\n######\r" ==
      TemplateHeader + "\n" + "n" + "\n" + TemplateHeaderSep + "\n" + (TemplateHeaderSep + "\r");
    LinesSeparatorCr();
    DecodeSeparatorOnly("n", TemplateHeaderSep + "\r");
  }

  /** A body block whose only line is the separator reads as two empty bodies. */
  lemma DecodeSeparatorOnly(name: string, rest: string)
    requires name != "" && '\n' !in name && Lines(rest) == [TemplateHeaderSep]
    ensures Decode(TemplateHeader + "\n" + name + "\n" + TemplateHeaderSep + "\n" + rest) == Ok(Template(name, "", ""))
  {
    SplitHeader(TemplateHeader, name, TemplateHeaderSep, rest);
    var ls := Lines(rest);
    assert IndexOf(ls, TemplateHeaderSep) == 0;
    assert DropLeadingEmpty(ls[..0]) == [] && ls[1..] == [];
  }

  /** The four pieces `splitn(4, "\n")` cuts a text into, put back together. */
  lemma SplitNFour(s: string)
    requires |SplitN(s, 4)| == 4
    ensures var v := SplitN(s, 4);
      '\n' !in v[0] && '\n' !in v[1] && '\n' !in v[2] &&
      s == v[0] + "\n" + v[1] + "\n" + v[2] + "\n" + v[3]
  {
    var v := SplitN(s, 4);
    SplitNJoin(s, 4);
    SplitNPieces(s, 4);
    assert v == [v[0], v[1], v[2], v[3]];
    JoinFour(v[0], v[1], v[2], v[3]);
  }

  lemma JoinFour(a: string, b: string, c: string, d: string)
    ensures Join([a, b, c, d]) == a + "\n" + b + "\n" + c + "\n" + d
  {
    assert [c, d][1..] == [d];
    assert Join([c, d]) == c + "\n" + d;
    assert [b, c, d][1..] == [c, d];
    assert Join([b, c, d]) == b + "\n" + (c + "\n" + d);
    assert [a, b, c, d][1..] == [b, c, d];
    assert Join([a, b, c, d]) == a + "\n" + (b + "\n" + (c + "\n" + d));
    assert a + "\n" + (b + "\n" + (c + "\n" + d)) == a + "\n" + b + "\n" + c + "\n" + d;
  }

  /** The plain body read from lines before the first separator line. */
  lemma PlainBodyShape(ls: seq<string>, k: nat)
    requires k <= |ls|
    requires forall l :: l in ls ==> '\n' !in l
    requires forall j :: 0 <= j < k ==> ls[j] != TemplateHeaderSep
    ensures var p := Join(DropLeadingEmpty(ls[..k]));
      (p == "" || p[0] != '\n') && TemplateHeaderSep !in Split(p)
  {
    var d := DropLeadingEmpty(ls[..k]);
    DropLeadingEmptySuffix(ls[..k]);
    var off := k - |d|;
    assert forall j :: 0 <= j < |d| ==> d[j] == ls[off + j];
    if d == [] {
      IndexOfAbsent("", '\n');
      assert Split(Join(d)) == [""];
    } else {
      forall l | l in d ensures '\n' !in l && l != TemplateHeaderSep {
        var j :| 0 <= j < |d| && d[j] == l;
        assert ls[off + j] in ls;
      }
      JoinSplit(d);
      JoinHead(d);
      assert Join(d)[0] == d[0][0];
      assert d[0] in d;
    }
  }

  /**
   * What a successful read promises: the name is the non-empty second line of the
   * file, the plain body does not start with '\n' and none of its lines is the separator.
   */
  lemma DecodeOk(s: string)
    requires Decode(s).Ok?
    ensures var t := Decode(s).value;
      var head := TemplateHeader + "\n" + t.name + "\n" + TemplateHeaderSep + "\n";
      t.name != "" && '\n' !in t.name &&
      |s| >= |head| && s[..|head|] == head &&
      (t.plainBody == "" || t.plainBody[0] != '\n') &&
      TemplateHeaderSep !in Split(t.plainBody)
  {
    var v := SplitN(s, 4);
    SplitNFour(s);
    var head := v[0] + "\n" + v[1] + "\n" + v[2] + "\n";
    assert s == head + v[3];
    var ls := Lines(v[3]);
    LinesValues(v[3]);
    PlainBodyShape(ls, IndexOf(ls, TemplateHeaderSep));
  }
}
