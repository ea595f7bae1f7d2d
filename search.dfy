/**
 * `linear_search` of passenger_density/main/data.py: keep, in order, the items
 * whose extracted attribute is truthy and whose text contains the search term,
 * ignoring case; a falsy term returns the input as it is.
 */
module Search {

  /** A Python value as `linear_search` uses it: its truthiness and its `str()` form. */
  datatype Value = Value(truthy: bool, text: string)

  /** Lower-case form of a character (the letters A to Z; other characters are kept). */
  function LowerChar(c: char): char
  {
    if 'A' <= c <= 'Z' then (c as int + 32) as char else c
  }

  /** `str.lower()`, character by character. */
  function Lower(s: string): (r: string)
    ensures |r| == |s|
    ensures forall i :: 0 <= i < |s| ==> r[i] == LowerChar(s[i])
  {
    if s == [] then [] else [LowerChar(s[0])] + Lower(s[1..])
  }

  /** Python's `needle in hay` on strings: the needle is a prefix of some suffix of the hay. */
  function Contains(hay: string, needle: string): bool
    decreases |hay|
  {
    needle <= hay || (hay != [] && Contains(hay[1..], needle))
  }

  /** The test `val and search_term in str(val).lower()`, with the term already lowered. */
  predicate Matches(loweredTerm: string, val: Value)
  {
    val.truthy && Contains(Lower(val.text), loweredTerm)
  }

  /** The items whose attribute matches the lowered term, in input order. */
  function Matching<T>(items: seq<T>, loweredTerm: string, attribute: T -> Value): seq<T>
  {
    if items == [] then []
    else
      var last := items[|items| - 1];
      Matching(items[..|items| - 1], loweredTerm, attribute) + (if Matches(loweredTerm, attribute(last)) then [last] else [])
  }

  /**
   * `linear_search`: a falsy term gives the input back; otherwise the term is
   * lowered once and the items are scanned in order, keeping the matches.
   */
  method LinearSearch<T>(dataList: seq<T>, searchTerm: Value, attributeFunc: T -> Value) returns (results: seq<T>)
    ensures !searchTerm.truthy ==> results == dataList
    ensures searchTerm.truthy ==> results == Matching(dataList, Lower(searchTerm.text), attributeFunc)
  {
    results := [];
    if !searchTerm.truthy {
      return dataList;
    }
    var term := Lower(searchTerm.text);
    for k := 0 to |dataList|
      invariant results == Matching(dataList[..k], term, attributeFunc)
    {
      var val := attributeFunc(dataList[k]);
      if val.truthy && Contains(Lower(val.text), term) {
        results := results + [dataList[k]];
      }
      assert dataList[..k + 1][..k] == dataList[..k];
    }
    assert dataList[..|dataList|] == dataList;
  }

  // ---------------------------------------------------------------------------
  // Lemmas
  // ---------------------------------------------------------------------------

  /** The needle occurs in the hay starting at position i. */
  ghost predicate OccursAt(hay: string, needle: string, i: int)
  {
    0 <= i <= |hay| - |needle| && hay[i..i + |needle|] == needle
  }

  /** The substring test holds exactly when the needle occurs at some position of the hay. */
  lemma {:induction false} ContainsIffOccurs(hay: string, needle: string)
    ensures Contains(hay, needle) <==> exists i :: OccursAt(hay, needle, i)
    decreases |hay|
  {
    if needle <= hay {
      assert OccursAt(hay, needle, 0);
    } else if hay == [] {
    } else {
      ContainsIffOccurs(hay[1..], needle);
      if Contains(hay[1..], needle) {
        var i :| OccursAt(hay[1..], needle, i);
        assert OccursAt(hay, needle, i + 1);
      }
      if exists i :: OccursAt(hay, needle, i) {
        var i :| OccursAt(hay, needle, i);
        assert i != 0;
        assert OccursAt(hay[1..], needle, i - 1);
      }
    }
  }

  /** Filtering distributes over concatenation, so the matches keep their input order. */
  lemma {:induction false} MatchingConcat<T>(a: seq<T>, b: seq<T>, loweredTerm: string, attribute: T -> Value)
    ensures Matching(a + b, loweredTerm, attribute) == Matching(a, loweredTerm, attribute) + Matching(b, loweredTerm, attribute)
    decreases |b|
  {
    if b == [] {
      assert a + b == a;
    } else {
      var last := b[|b| - 1];
      assert (a + b)[..|a + b| - 1] == a + b[..|b| - 1];
      MatchingConcat(a, b[..|b| - 1], loweredTerm, attribute);
    }
  }

  /** An item is in the result exactly when it is in the input and matches. */
  lemma {:induction false} MatchingMembers<T>(items: seq<T>, loweredTerm: string, attribute: T -> Value, x: T)
    ensures x in Matching(items, loweredTerm, attribute) <==> x in items && Matches(loweredTerm, attribute(x))
  {
    if items != [] {
      var init := items[..|items| - 1];
      MatchingMembers(init, loweredTerm, attribute, x);
      assert items == init + [items[|items| - 1]];
    }
  }

  /** When every item matches the result is the input; when none does it is empty. */
  lemma {:induction false} MatchingExtremes<T>(items: seq<T>, loweredTerm: string, attribute: T -> Value)
    ensures (forall i :: 0 <= i < |items| ==> Matches(loweredTerm, attribute(items[i]))) ==> Matching(items, loweredTerm, attribute) == items
    ensures (forall i :: 0 <= i < |items| ==> !Matches(loweredTerm, attribute(items[i]))) ==> Matching(items, loweredTerm, attribute) == []
  {
    if items != [] {
      var init := items[..|items| - 1];
      MatchingExtremes(init, loweredTerm, attribute);
      assert items == init + [items[|items| - 1]];
    }
  }

  lemma {:induction false} LowerIdempotent(s: string)
    ensures Lower(Lower(s)) == Lower(s)
  {
    if s != [] {
      LowerIdempotent(s[1..]);
    }
  }

  /**
   * The search ignores the case of the term: a term and its lower-case form
   * select the same items.
   */
  lemma SearchIgnoresTermCase<T>(items: seq<T>, term: string, attribute: T -> Value)
    ensures Matching(items, Lower(Lower(term)), attribute) == Matching(items, Lower(term), attribute)
  {
    LowerIdempotent(term);
  }

  /** The search ignores the case of the attribute text too. */
  lemma SearchIgnoresTextCase(loweredTerm: string, val: Value)
    ensures Matches(loweredTerm, val.(text := Lower(val.text))) == Matches(loweredTerm, val)
  {
    LowerIdempotent(val.text);
  }
}
