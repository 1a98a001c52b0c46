/** The round-trip unit test of the template codec. */
module ManageTests {
  import opened Text
  import opened Manage

  /** The template of the source's round-trip test: a two-line plain body and a one-line html body. */
  function ExampleTemplate(): Template {
    Template("abc", "this is a plain body on" + "\n" + "multi lines",
      "this is <b>html body</b>" + " with some kind of <u>escape</u>")
  }

  // Each fact about a literal sits in a lemma of its own, which keeps its evaluation small.
  lemma ExampleFirstLine(c: char)
    requires c == '#' || c == '\r'
    ensures c !in "this is a plain body on"
  {
  }

  lemma ExampleSecondLine(c: char)
    requires c == '#' || c == '\r'
    ensures c !in "multi lines"
  {
  }

  lemma ExampleHtmlStart()
    ensures '\r' !in "this is <b>html body</b>"
  {
  }

  lemma ExampleHtmlEnd()
    ensures '\r' !in " with some kind of <u>escape</u>"
  {
  }

  lemma ExampleHtml()
    ensures '\r' !in ExampleTemplate().htmlBody
  {
    ExampleHtmlStart();
    ExampleHtmlEnd();
  }

  lemma ExamplePlain(c: char)
    requires c == '#' || c == '\r'
    ensures c !in ExampleTemplate().plainBody
  {
    ExampleFirstLine(c);
    ExampleSecondLine(c);
  }

  /** The round trip the source's test asserts, for its template. */
  lemma ExampleRoundTrip(t: Template)
    requires t == ExampleTemplate()
    ensures Decode(Encode(t)) == Ok(t)
  {
    ExamplePlain('#');
    ExamplePlain('\r');
    ExampleHtml();
    WithoutHashRoundTrip(t);
  }
}
