/**
 * The text shown in the results popup of `search_term`: a header naming the
 * term followed by one bullet line per matching document, or a single
 * "does not appear" sentence when nothing matched.
 */
module Report {

  datatype Option<T> = None | Some(value: T)

  /** The number of line breaks in `s`. */
  function LineBreaks(s: string): (n: nat)
    ensures n <= |s|
    ensures '\n' !in s ==> n == 0
  {
    if s == [] then 0 else (if s[0] == '\n' then 1 else 0) + LineBreaks(s[1..])
  }

  lemma {:induction false} LineBreaksAppend(a: string, b: string)
    ensures LineBreaks(a + b) == LineBreaks(a) + LineBreaks(b)
  {
    if a != [] {
      assert (a + b)[0] == a[0];
      assert (a + b)[1..] == a[1..] + b;
      LineBreaksAppend(a[1..], b);
    } else {
      assert a + b == b;
    }
  }

  /** The part both messages start with. */
  function Opening(term: string): string {
    "The term '" + term + "' "
  }

  const FoundTail: string := "was found in the following documents:\n\n"
  const NotFoundTail: string := "does not appear in any document."

  /** The first part of the message when documents were found. */
  function Header(term: string): string {
    Opening(term) + FoundTail
  }

  /** The whole message when nothing was found. */
  function NotFoundMessage(term: string): string {
    Opening(term) + NotFoundTail
  }

  /** The line added for one document. */
  function Bullet(doc: string): string {
    "- " + doc + "\n"
  }

  /** A bullet line is a dash and a space, the name, and a line break; for a
      name without line breaks it is exactly one line. */
  lemma BulletShape(doc: string)
    ensures |Bullet(doc)| == |doc| + 3
    ensures Bullet(doc)[..2] == "- " && Bullet(doc)[2..|doc| + 2] == doc && Bullet(doc)[|doc| + 2] == '\n'
    ensures '\n' !in doc ==> LineBreaks(Bullet(doc)) == 1
  {
    LineBreaksAppend("- " + doc, "\n");
    LineBreaksAppend("- ", doc);
  }

  /** The bullet lines of `docs`, in order: one line per document. */
  function Bullets(docs: seq<string>): (r: string)
    ensures NoLineBreaks(docs) ==> LineBreaks(r) == |docs|
  {
    if docs == [] then ""
    else
      BulletShape(docs[0]);
      LineBreaksAppend(Bullet(docs[0]), Bullets(docs[1..]));
      Bullet(docs[0]) + Bullets(docs[1..])
  }

  /** The popup text for a given result list. */
  function Message(term: string, results: seq<string>): string {
    if |results| > 0 then Header(term) + Bullets(results) else NotFoundMessage(term)
  }

  /** Both forms of the message name the term right after "The term '"; the
      found form ends with the blank line of the header followed by the bullet
      lines, and the other form is the "does not appear" sentence with no line
      break after the term. */
  lemma MessageShape(term: string, results: seq<string>)
    ensures |Message(term, results)| >= |term| + 12
    ensures Message(term, results)[..10] == "The term '"
    ensures Message(term, results)[10..10 + |term|] == term
    ensures |results| > 0 ==> Message(term, results)[|term| + 49..|term| + 51] == "\n\n"
    ensures |results| > 0 ==> Message(term, results)[|term| + 51..] == Bullets(results)
    ensures |results| == 0 ==> Message(term, results)[10 + |term|..] == "' " + NotFoundTail
  {
    var m := Message(term, results);
    var opening := Opening(term);
    assert opening[..10] == "The term '" && opening[10..10 + |term|] == term;
    if |results| > 0 {
      assert m == opening + FoundTail + Bullets(results);
    } else {
      assert m == opening + NotFoundTail;
    }
  }

  /** Adding a document to the list adds its bullet line at the end. */
  lemma {:induction false} BulletsAppend(docs: seq<string>, doc: string)
    ensures Bullets(docs + [doc]) == Bullets(docs) + Bullet(doc)
  {
    if docs == [] {
      assert [] + [doc] == [doc];
      assert [doc][1..] == [];
    } else {
      assert (docs + [doc])[1..] == docs[1..] + [doc];
      BulletsAppend(docs[1..], doc);
    }
  }

  /** Lines 24-30 of `search_term`: the header and one bullet per result, or
      the "does not appear" sentence. */
  method ComposeMessage(term: string, results: seq<string>) returns (message: string)
    ensures message == Message(term, results)
  {
    if |results| > 0 {
      message := Header(term);
      for i := 0 to |results|
        invariant message == Header(term) + Bullets(results[..i])
      {
        assert results[..i + 1] == results[..i] + [results[i]];
        BulletsAppend(results[..i], results[i]);
        message := message + Bullet(results[i]);
      }
      assert results[..|results|] == results;
    } else {
      message := NotFoundMessage(term);
    }
  }

  /** The first position at or after `from` that holds a line break, or `|s|`
      when there is none. */
  function LineEnd(s: string, from: nat): (k: nat)
    requires from <= |s|
    ensures from <= k <= |s|
    ensures forall j :: from <= j < k ==> s[j] != '\n'
    ensures k < |s| ==> s[k] == '\n'
    decreases |s| - from
  {
    if from == |s| || s[from] == '\n' then from else LineEnd(s, from + 1)
  }

  /** Reads back a sequence of bullet lines; `None` if `s` is not one. */
  function ReadBullets(s: string): Option<seq<string>>
    decreases |s|
  {
    if s == [] then Some([])
    else if |s| < 2 || s[..2] != "- " then None
    else
      var k := LineEnd(s, 2);
      if k == |s| then None
      else match ReadBullets(s[k + 1..])
        case None => None
        case Some(rest) => Some([s[2..k]] + rest)
  }

  /** Reads back the result list from the popup text for `term`; `None` if the
      text is not a message for `term`. */
  function ParseMessage(term: string, message: string): Option<seq<string>> {
    var opening := Opening(term);
    if |message| < |opening| || message[..|opening|] != opening then None
    else
      var tail := message[|opening|..];
      if tail == NotFoundTail then Some([])
      else if |tail| < |FoundTail| || tail[..|FoundTail|] != FoundTail then None
      else match ReadBullets(tail[|FoundTail|..])
        case Some(docs) => if docs != [] then Some(docs) else None
        case None => None
  }

  predicate NoLineBreaks(docs: seq<string>) {
    forall k :: 0 <= k < |docs| ==> '\n' !in docs[k]
  }

  /** Reading one bullet line off the front of `s`. */
  lemma ReadBulletsStep(doc: string, rest: string)
    requires '\n' !in doc
    ensures ReadBullets(Bullet(doc) + rest) ==
      match ReadBullets(rest)
      case None => None
      case Some(docs) => Some([doc] + docs)
  {
    var line := Bullet(doc);
    var s := line + rest;
    var n := 2 + |doc|;
    forall j | 2 <= j < n
      ensures s[j] != '\n'
    {
      assert s[j] == line[j] == doc[j - 2];
    }
    assert s[n] == line[n] == '\n';
    assert s[..2] == line[..2] == "- ";
    assert LineEnd(s, 2) == n;
    assert s[2..n] == line[2..n] == doc;
    assert s[n + 1..] == rest;
  }

  /** The bullet lines determine the documents, one line each, in order. */
  lemma {:induction false} ReadBulletsRoundTrip(docs: seq<string>)
    requires NoLineBreaks(docs)
    ensures ReadBullets(Bullets(docs)) == Some(docs)
  {
    if docs != [] {
      assert Bullets(docs) == Bullet(docs[0]) + Bullets(docs[1..]);
      ReadBulletsStep(docs[0], Bullets(docs[1..]));
      ReadBulletsRoundTrip(docs[1..]);
      assert [docs[0]] + docs[1..] == docs;
    }
  }

  /** The popup text determines the result list: header, then exactly one
      bullet line per document in order, or the "does not appear" sentence for
      an empty list. */
  lemma MessageRoundTrip(term: string, results: seq<string>)
    requires NoLineBreaks(results)
    ensures ParseMessage(term, Message(term, results)) == Some(results)
  {
    var opening := Opening(term);
    var m := Message(term, results);
    if |results| > 0 {
      assert m == opening + (FoundTail + Bullets(results));
      assert m[..|opening|] == opening;
      var tail := m[|opening|..];
      assert tail == FoundTail + Bullets(results);
      assert tail != NotFoundTail by {
        assert tail[0] != NotFoundTail[0];
      }
      assert tail[..|FoundTail|] == FoundTail;
      assert tail[|FoundTail|..] == Bullets(results);
      ReadBulletsRoundTrip(results);
    } else {
      assert m == opening + NotFoundTail;
      assert m[..|opening|] == opening;
      assert m[|opening|..] == NotFoundTail;
    }
  }

  /** The two kinds of message never coincide, whatever the term. */
  lemma FoundDiffersFromNotFound(term: string, results: seq<string>)
    requires |results| > 0
    ensures Message(term, results) != NotFoundMessage(term)
  {
  }
}
