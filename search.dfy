/**
 * The document search of `search_term`: walk the directory listing in order,
 * keep the `.txt` files whose lower-cased text contains the lower-cased term,
 * and report the names kept.
 *
 * The directory is given as the sequence of its entries in listing order, each
 * with its name and its full text, and the term as a parameter.
 */
module Search {
  import opened Text
  import Report

  /** One directory entry: a file name and the text that reading the file in
      text mode returns (decoded from UTF-8, with `\r\n` and `\r` already
      turned into `\n`). */
  datatype Entry = Entry(name: string, content: string)

  const TextSuffix: string := ".txt"

  /** The test the loop applies to one entry: a text file whose lower-cased
      content contains the lower-cased term. */
  predicate Accepts(term: string, e: Entry)
    ensures Accepts(term, e) ==> |e.name| >= |TextSuffix| && e.name[|e.name| - 1] == 't'
    ensures Accepts(term, e) ==> |term| <= |e.content|
  {
    EndsWith(e.name, TextSuffix) && IsSubstring(Lower(term), Lower(e.content))
  }

  /** The names of the accepted entries, in listing order. Defined from the
      end of the listing, the way the loop appends to `results`. */
  function MatchList(term: string, listing: seq<Entry>): (r: seq<string>)
    ensures |r| <= |listing|
  {
    if listing == [] then []
    else
      var last := listing[|listing| - 1];
      MatchList(term, listing[..|listing| - 1]) + (if Accepts(term, last) then [last.name] else [])
  }

  /** The names of all `.txt` entries, in listing order. */
  function TextFiles(listing: seq<Entry>): (r: seq<string>)
    ensures forall k :: 0 <= k < |r| ==> EndsWith(r[k], TextSuffix)
  {
    if listing == [] then []
    else
      var last := listing[|listing| - 1];
      TextFiles(listing[..|listing| - 1]) + (if EndsWith(last.name, TextSuffix) then [last.name] else [])
  }

  /** Every `.txt` entry of the listing has its name among the text files. */
  lemma {:induction false} TextFilesComplete(listing: seq<Entry>)
    ensures forall e :: e in listing && EndsWith(e.name, TextSuffix) ==> e.name in TextFiles(listing)
  {
    if listing != [] {
      var init := listing[..|listing| - 1];
      TextFilesComplete(init);
      assert listing == init + [listing[|listing| - 1]];
    }
  }

  /** The loop of `search_term`: append each accepted name to `results`. */
  method CollectMatches(term: string, listing: seq<Entry>) returns (results: seq<string>)
    ensures results == MatchList(term, listing)
  {
    results := [];
    for i := 0 to |listing|
      invariant results == MatchList(term, listing[..i])
    {
      var file := listing[i];
      assert listing[..i + 1][..i] == listing[..i];
      if EndsWith(file.name, TextSuffix) {
        var content := Lower(file.content);
        if IsSubstring(Lower(term), content) {
          results := results + [file.name];
        }
      }
    }
    assert listing[..|listing|] == listing;
  }

  /** The whole handler: search, then build the text of the popup. */
  method SearchTerm(term: string, listing: seq<Entry>) returns (results: seq<string>, message: string)
    ensures results == MatchList(term, listing)
    ensures message == Report.Message(term, results)
  {
    results := CollectMatches(term, listing);
    message := Report.ComposeMessage(term, results);
  }

  /** Soundness: every reported name is that of a `.txt` entry of the listing
      whose lower-cased text contains the lower-cased term. */
  lemma {:induction false} MatchListSound(term: string, listing: seq<Entry>)
    ensures forall name :: name in MatchList(term, listing) ==>
      EndsWith(name, TextSuffix) &&
      exists e :: e in listing && e.name == name && Accepts(term, e)
  {
    if listing != [] {
      var init := listing[..|listing| - 1];
      MatchListSound(term, init);
      forall name | name in MatchList(term, listing)
        ensures EndsWith(name, TextSuffix)
        ensures exists e :: e in listing && e.name == name && Accepts(term, e)
      {
        if name in MatchList(term, init) {
          var e :| e in init && e.name == name && Accepts(term, e);
          assert e in listing;
        } else {
          assert listing[|listing| - 1] in listing;
        }
      }
    }
  }

  /** Completeness: every accepted entry has its name reported. */
  lemma {:induction false} MatchListComplete(term: string, listing: seq<Entry>)
    ensures forall e :: e in listing && Accepts(term, e) ==> e.name in MatchList(term, listing)
  {
    if listing != [] {
      var init := listing[..|listing| - 1];
      MatchListComplete(term, init);
      assert listing == init + [listing[|listing| - 1]];
    }
  }

  /** Order preservation: the result is exactly the subsequence of the listing
      made of the accepted entries. `idx` gives, for each reported name, the
      position of its entry; the positions increase and cover every accepted
      entry. */
  lemma {:induction false} MatchListInOrder(term: string, listing: seq<Entry>) returns (idx: seq<nat>)
    ensures |idx| == |MatchList(term, listing)|
    ensures forall k :: 0 <= k < |idx| ==>
      idx[k] < |listing| && MatchList(term, listing)[k] == listing[idx[k]].name && Accepts(term, listing[idx[k]])
    ensures forall k, l :: 0 <= k < l < |idx| ==> idx[k] < idx[l]
    ensures forall i :: 0 <= i < |listing| && Accepts(term, listing[i]) ==> i in idx
  {
    if listing == [] {
      idx := [];
    } else {
      var n := |listing| - 1;
      var init, last := listing[..n], listing[n];
      var prev := MatchListInOrder(term, init);
      var r, rp := MatchList(term, listing), MatchList(term, init);
      assert forall j :: 0 <= j < n ==> init[j] == listing[j];
      if Accepts(term, last) {
        idx := prev + [n];
        assert r == rp + [last.name];
        assert forall k :: 0 <= k < |prev| ==> idx[k] == prev[k] && r[k] == rp[k];
        assert idx[|prev|] == n && r[|prev|] == last.name;
      } else {
        idx := prev;
        assert r == rp;
      }
    }
  }

  /** The empty term selects every `.txt` entry. */
  lemma {:induction false} MatchListEmptyTerm(listing: seq<Entry>)
    ensures MatchList("", listing) == TextFiles(listing)
  {
    if listing != [] {
      MatchListEmptyTerm(listing[..|listing| - 1]);
      EmptyIsSubstring(Lower(listing[|listing| - 1].content));
    }
  }

  /** Case-insensitivity: terms with the same lower-case form select the same
      documents. */
  lemma {:induction false} MatchListCaseInsensitive(term1: string, term2: string, listing: seq<Entry>)
    requires Lower(term1) == Lower(term2)
    ensures MatchList(term1, listing) == MatchList(term2, listing)
  {
    if listing != [] {
      MatchListCaseInsensitive(term1, term2, listing[..|listing| - 1]);
    }
  }

  /** Searching for a term and for its lower-case form gives the same result. */
  lemma LowerTermSameMatches(term: string, listing: seq<Entry>)
    ensures MatchList(Lower(term), listing) == MatchList(term, listing)
  {
    LowerIdempotent(term);
    MatchListCaseInsensitive(Lower(term), term, listing);
  }

  /** "Hello" and "HELLO" select the same documents in every listing. */
  lemma HelloCaseInsensitive(listing: seq<Entry>)
    ensures MatchList("Hello", listing) == MatchList("HELLO", listing)
  {
    assert Lower("Hello") == "hello";
    assert Lower("HELLO") == "hello";
    MatchListCaseInsensitive("Hello", "HELLO", listing);
  }

  /** "the quick fox" contains "quick". The `requires` only pass in these fixed
      values. */
  lemma QuickFoxContainsQuick(term: string, e: Entry)
    requires term == "quick" && e.content == "the quick fox"
    ensures IsSubstring(Lower(term), Lower(e.content))
  {
    var n, h := Lower(term), Lower(e.content);
    assert n == "quick";
    assert h == "the quick fox";
    assert OccursAt(n, h, 4);
  }

  /** "the lazy dog" does not contain "quick": it has no `q` at all. The
      `requires` only pass in these fixed values. */
  lemma LazyDogLacksQuick(term: string, e: Entry)
    requires term == "quick" && e.content == "the lazy dog"
    ensures !IsSubstring(Lower(term), Lower(e.content))
  {
    var n, h := Lower(term), Lower(e.content);
    assert n[0] == 'q';
    assert 'q' !in e.content && 'Q' !in e.content;
    forall i: nat | i <= |h|
      ensures !OccursAt(n, h, i)
    {
      if i + |n| <= |h| {
        assert h[i + 0] == LowerChar(e.content[i]) != n[0];
      }
    }
  }

  /** A `.log` file is skipped even when its text contains the term; of two
      text files only the one containing "quick" is reported. The `requires`
      only pass in the fixed values of the example. */
  lemma QuickFoxScenario(term: string, a: Entry, b: Entry, c: Entry)
    requires term == "quick"
    requires a == Entry("a.txt", "the quick fox") && b == Entry("b.txt", "the lazy dog")
    requires c == Entry("c.log", "the quick fox")
    ensures MatchList(term, [a, b, c]) == ["a.txt"]
  {
    QuickFoxContainsQuick(term, a);
    LazyDogLacksQuick(term, b);
    LogFileIsNotText(c);
    assert [a][..0] == [];
    assert MatchList(term, [a]) == ["a.txt"];
    assert [a, b][..1] == [a];
    assert [a, b, c][..2] == [a, b];
  }

  /** "Hello World" contains "WORLD" once both are lower-cased. The
      `requires` only pass in these fixed values. */
  lemma HelloWorldContainsWorld(term: string, e: Entry)
    requires term == "WORLD" && e.content == "Hello World"
    ensures IsSubstring(Lower(term), Lower(e.content))
  {
    var n, h := Lower(term), Lower(e.content);
    assert n == "world";
    assert h == "hello world";
    assert OccursAt(n, h, 6);
  }

  /** A file named `c.log` is not a `.txt` file. The `requires` only passes in
      this fixed value. */
  lemma LogFileIsNotText(e: Entry)
    requires e.name == "c.log"
    ensures !EndsWith(e.name, TextSuffix)
  {
    assert e.name[|e.name| - |TextSuffix| + 1] != TextSuffix[1];
  }

  /** The match ignores case in the document as well as in the term. The
      `requires` only pass in the fixed values of the example. */
  lemma WorldScenario(term: string, a: Entry)
    requires term == "WORLD" && a == Entry("a.txt", "Hello World")
    ensures MatchList(term, [a]) == ["a.txt"]
  {
    HelloWorldContainsWorld(term, a);
    assert EndsWith(a.name, TextSuffix);
    assert [a][..0] == [];
  }
}
