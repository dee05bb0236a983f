/** The question search of the `search_questions` handler: questions whose text contains the
    search term, case ignored, in store order, with their count. */
module Search {
  import opened TriviaTypes

  /** ASCII lower-casing of one character; every other character is left as it is. */
  function LowerChar(c: char): char
  {
    if 'A' <= c <= 'Z' then (c as int + 32) as char else c
  }

  /** ASCII upper-casing of one character. */
  function UpperChar(c: char): char
  {
    if 'a' <= c <= 'z' then (c as int - 32) as char else c
  }

  function Lower(s: string): (r: string)
    ensures |r| == |s|
    ensures forall i :: 0 <= i < |s| ==> r[i] == LowerChar(s[i])
  {
    seq(|s|, i requires 0 <= i < |s| => LowerChar(s[i]))
  }

  function Upper(s: string): (r: string)
    ensures |r| == |s|
    ensures forall i :: 0 <= i < |s| ==> r[i] == UpperChar(s[i])
  {
    seq(|s|, i requires 0 <= i < |s| => UpperChar(s[i]))
  }

  /** `term` occurs in `text` starting at index `i`. */
  predicate OccursAt(term: string, text: string, i: int)
  {
    0 <= i && i + |term| <= |text| && text[i..i + |term|] == term
  }

  predicate IsSubstring(term: string, text: string)
  {
    exists i :: 0 <= i <= |text| - |term| && OccursAt(term, text, i)
  }

  /** The search intent: the term is a substring of the question text when case is ignored. */
  predicate MatchesTerm(q: Question, term: string)
  {
    IsSubstring(Lower(term), Lower(q.question))
  }

  /** The questions of `qs` that match `term`, in store order. */
  function Search(qs: seq<Question>, term: string): seq<Question>
  {
    if qs == [] then []
    else (if MatchesTerm(qs[0], term) then [qs[0]] else []) + Search(qs[1..], term)
  }

  /** The search reply: the matching questions and their number. */
  datatype SearchResult = SearchResult(questions: seq<Question>, totalQuestions: nat)

  /** The `searchTerm` field of the request body; an absent field means the empty term. */
  function SearchTerm(arg: Option<string>): (term: string)
    ensures arg.None? ==> term == ""
    ensures arg.Some? ==> term == arg.value
  {
    match arg
    case None => ""
    case Some(t) => t
  }

  /** The handler's reply: the matching questions and a count equal to their number. */
  function SearchQuestions(qs: seq<Question>, arg: Option<string>): (r: SearchResult)
    ensures r.totalQuestions == |r.questions| <= |qs|
    ensures forall q :: q in r.questions <==> q in qs && MatchesTerm(q, SearchTerm(arg))
  {
    SearchMembership(qs, SearchTerm(arg));
    SearchLength(qs, SearchTerm(arg));
    var found := Search(qs, SearchTerm(arg));
    SearchResult(found, |found|)
  }

  /** A question is found exactly when it is in the store and its text contains the term, case ignored. */
  lemma {:induction false} SearchMembership(qs: seq<Question>, term: string)
    ensures forall q :: q in Search(qs, term) <==> q in qs && MatchesTerm(q, term)
  {
    if qs != [] {
      SearchMembership(qs[1..], term);
      assert qs == [qs[0]] + qs[1..];
    }
  }

  lemma {:induction false} SearchLength(qs: seq<Question>, term: string)
    ensures |Search(qs, term)| <= |qs|
  {
    if qs != [] {
      SearchLength(qs[1..], term);
    }
  }

  /** Searching keeps store order: the results for a split store are the results for each part, in order. */
  lemma {:induction false} SearchKeepsOrder(a: seq<Question>, b: seq<Question>, term: string)
    ensures Search(a + b, term) == Search(a, term) + Search(b, term)
  {
    if a == [] {
      assert a + b == b;
    } else {
      assert (a + b)[1..] == a[1..] + b;
      SearchKeepsOrder(a[1..], b, term);
    }
  }

  /** The empty string occurs in every text. */
  lemma EmptyTermOccurs(text: string)
    ensures IsSubstring("", text)
  {
    assert OccursAt("", text, 0);
  }

  /** The empty term matches every question: the search returns the whole store. */
  lemma {:induction false} EmptyTermFindsAll(qs: seq<Question>)
    ensures Search(qs, "") == qs
  {
    if qs != [] {
      EmptyTermOccurs(Lower(qs[0].question));
      assert Lower("") == "";
      EmptyTermFindsAll(qs[1..]);
    }
  }

  lemma LowerUpperChar(c: char)
    ensures LowerChar(UpperChar(c)) == LowerChar(c)
    ensures LowerChar(LowerChar(c)) == LowerChar(c)
  {
  }

  /** The case of the term does not matter: it may be given lower-cased or upper-cased. */
  lemma {:induction false} SearchIgnoresTermCase(qs: seq<Question>, term: string)
    ensures Search(qs, Lower(term)) == Search(qs, term)
    ensures Search(qs, Upper(term)) == Search(qs, term)
  {
    assert Lower(Lower(term)) == Lower(term) by {
      forall i | 0 <= i < |term| ensures Lower(Lower(term))[i] == Lower(term)[i] {
        LowerUpperChar(term[i]);
      }
    }
    assert Lower(Upper(term)) == Lower(term) by {
      forall i | 0 <= i < |term| ensures Lower(Upper(term))[i] == Lower(term)[i] {
        LowerUpperChar(term[i]);
      }
    }
    SearchSameFolding(qs, Lower(term), term);
    SearchSameFolding(qs, Upper(term), term);
  }

  /** Two terms with the same lower-case form find the same questions. */
  lemma {:induction false} SearchSameFolding(qs: seq<Question>, t1: string, t2: string)
    requires Lower(t1) == Lower(t2)
    ensures Search(qs, t1) == Search(qs, t2)
  {
    if qs != [] {
      SearchSameFolding(qs[1..], t1, t2);
    }
  }

  /** The service's search test uses the term "what": it finds a question starting "What". */
  lemma LowerCaseTermFindsCapitalised(q: Question)
    requires q.question == "What is the answer?"
    ensures Search([q], "what") == [q]
  {
    assert Lower(q.question)[0..4] == "what";
    assert OccursAt(Lower("what"), Lower(q.question), 0);
  }

  // ---------------------------------------------------------------------------------------------
  // The filter as the handler writes it: `Question.question.ilike('%' + term + '%')`.
  // In an ILIKE pattern `%` stands for any run of characters and `_` for any one character,
  // so characters of the term itself act as wildcards.

  /** Case-insensitive LIKE matching of a whole text against a pattern with `%` and `_` wildcards. */
  predicate ILike(text: string, pattern: string)
    decreases |text| + |pattern|
  {
    if pattern == [] then text == []
    else if pattern[0] == '%' then ILike(text, pattern[1..]) || (text != [] && ILike(text[1..], pattern))
    else text != [] && (pattern[0] == '_' || LowerChar(text[0]) == LowerChar(pattern[0])) && ILike(text[1..], pattern[1..])
  }

  /** The search as written: the term is wrapped in `%` and matched with ILIKE. */
  function SearchAsWritten(qs: seq<Question>, term: string): seq<Question>
  {
    if qs == [] then []
    else (if ILike(qs[0].question, "%" + term + "%") then [qs[0]] else []) + SearchAsWritten(qs[1..], term)
  }

  /** A term without characters that are special in a LIKE pattern (`%`, `_` and the escape `\`). */
  predicate NoWildcards(term: string)
  {
    forall i :: 0 <= i < |term| ==> term[i] != '%' && term[i] != '_' && term[i] != '\\'
  }

  /** The search term "_" is a wildcard for any one character: as written, it finds a question whose
      text contains no underscore, which the substring search does not. */
  lemma UnderscoreTermMatchesAnyText(q: Question)
    requires q.question == "Who?"
    ensures SearchAsWritten([q], "_") == [q]
    ensures Search([q], "_") == []
  {
    var p := "%" + "_" + "%";
    assert ILike("?", p[2..]) by { assert ILike("", p[2..][1..]); }
    assert ILike("o?", p[1..]);
    assert ILike("Who?", p) by { assert ILike("ho?", p); assert ILike("o?", p); }
    assert Lower("_") == "_";
    var t := Lower(q.question);
    assert t == "who?";
    forall i | 0 <= i <= |t| - 1
      ensures !OccursAt("_", t, i)
    {
      assert t[i..i + 1][0] == t[i];
      assert t[i] == 'w' || t[i] == 'h' || t[i] == 'o' || t[i] == '?';
    }
  }

  /** A pattern of a single `%` matches every text. */
  lemma {:induction false} PercentMatchesAll(text: string)
    ensures ILike(text, "%")
    decreases |text|
  {
    if text != [] {
      PercentMatchesAll(text[1..]);
    }
  }

  /** A literal term followed by `%` matches exactly the texts that start with the term, case ignored. */
  lemma {:induction false} LiteralPrefix(text: string, term: string)
    requires NoWildcards(term)
    ensures ILike(text, term + "%") <==> |term| <= |text| && Lower(text[..|term|]) == Lower(term)
    decreases |term|
  {
    if term == [] {
      PercentMatchesAll(text);
      assert term + "%" == "%";
    } else {
      assert (term + "%")[0] == term[0];
      assert term[0] != '%' && term[0] != '_';
      assert (term + "%")[1..] == term[1..] + "%";
      LiteralPrefix(if text == [] then text else text[1..], term[1..]);
      if text != [] && |term| <= |text| {
        var a, b := Lower(text[..|term|]), Lower(term);
        assert a == [LowerChar(text[0])] + Lower(text[1..][..|term| - 1]);
        assert b == [LowerChar(term[0])] + Lower(term[1..]);
        assert a == b <==> a[0] == b[0] && a[1..] == b[1..];
      }
    }
  }

  /** A pattern `%` followed by `rest` matches when `rest` matches some suffix of the text. */
  lemma {:induction false} LeadingPercent(text: string, rest: string)
    ensures ILike(text, "%" + rest) <==> exists i :: 0 <= i <= |text| && ILike(text[i..], rest)
    decreases |text|
  {
    var p := "%" + rest;
    assert p[1..] == rest;
    if text == [] {
      assert text[0..] == text;
    } else {
      LeadingPercent(text[1..], rest);
      assert text[0..] == text;
      if exists i :: 0 <= i <= |text| && ILike(text[i..], rest) {
        var i :| 0 <= i <= |text| && ILike(text[i..], rest);
        if i > 0 {
          assert text[1..][i - 1..] == text[i..];
        }
      }
      if exists i :: 0 <= i <= |text[1..]| && ILike(text[1..][i..], rest) {
        var i :| 0 <= i <= |text[1..]| && ILike(text[1..][i..], rest);
        assert text[1..][i..] == text[i + 1..];
      }
    }
  }

  /** For terms without wildcard characters the ILIKE filter as written is exactly the intended
      case-insensitive substring test. */
  lemma ILikeIsSubstringForPlainTerms(text: string, term: string)
    requires NoWildcards(term)
    ensures ILike(text, "%" + term + "%") <==> IsSubstring(Lower(term), Lower(text))
  {
    assert "%" + term + "%" == "%" + (term + "%");
    LeadingPercent(text, term + "%");
    if IsSubstring(Lower(term), Lower(text)) {
      var i :| 0 <= i <= |text| - |term| && OccursAt(Lower(term), Lower(text), i);
      LiteralPrefix(text[i..], term);
      assert Lower(text[i..][..|term|]) == Lower(text)[i..i + |term|];
    }
    if ILike(text, "%" + term + "%") {
      var i :| 0 <= i <= |text| && ILike(text[i..], term + "%");
      LiteralPrefix(text[i..], term);
      assert Lower(text[i..][..|term|]) == Lower(text)[i..i + |term|];
      assert OccursAt(Lower(term), Lower(text), i);
    }
  }

  /** Hence, for such terms, the search as written and the intended search agree. */
  lemma {:induction false} SearchAsWrittenAgreesForPlainTerms(qs: seq<Question>, term: string)
    requires NoWildcards(term)
    ensures SearchAsWritten(qs, term) == Search(qs, term)
  {
    if qs != [] {
      ILikeIsSubstringForPlainTerms(qs[0].question, term);
      SearchAsWrittenAgreesForPlainTerms(qs[1..], term);
    }
  }
}
