/** The store queries the handlers issue, as functions over the tables'
    contents in store order: filters (`filter_by`, `ilike`, `notin_`),
    primary-key lookups (`one_or_none`), and the id-to-type dictionary. */
module Queries {
  import opened Records

  /** `query.filter(...).all()`: the rows that satisfy `keep`, in store order. */
  function Where(s: seq<Question>, keep: Question -> bool): (r: seq<Question>)
    ensures |r| <= |s|
    ensures forall x :: x in r <==> x in s && keep(x)
  {
    if s == [] then []
    else (if keep(s[0]) then [s[0]] else []) + Where(s[1..], keep)
  }

  /** Filtering keeps the store order: it distributes over concatenation. */
  lemma {:induction false} WhereConcat(s: seq<Question>, t: seq<Question>, keep: Question -> bool)
    ensures Where(s + t, keep) == Where(s, keep) + Where(t, keep)
  {
    if s == [] {
      assert s + t == t;
    } else {
      assert (s + t)[0] == s[0] && (s + t)[1..] == s[1..] + t;
      WhereConcat(s[1..], t, keep);
    }
  }

  /** A filter that rejects every row selects nothing. */
  lemma {:induction false} WhereNone(s: seq<Question>, keep: Question -> bool)
    requires forall x :: x in s ==> !keep(x)
    ensures Where(s, keep) == []
  {
    if s != [] {
      WhereNone(s[1..], keep);
    }
  }

  /** Filtering a table kept in id order yields rows in id order, each once. */
  lemma {:induction false} WhereKeepsIdOrder(s: seq<Question>, keep: Question -> bool)
    ensures IdsIncreasing(s) ==> IdsIncreasing(Where(s, keep))
  {
    if s != [] && IdsIncreasing(s) {
      WhereKeepsIdOrder(s[1..], keep);
      forall x | x in s[1..]
        ensures s[0].id < x.id
      {
        var k :| 0 <= k < |s[1..]| && s[1..][k] == x;
        assert s[k + 1] == x;
      }
    }
  }

  /** Two filters that agree on every row select the same rows. */
  lemma {:induction false} WhereCongruent(s: seq<Question>, p: Question -> bool, q: Question -> bool)
    requires forall x :: x in s ==> p(x) == q(x)
    ensures Where(s, p) == Where(s, q)
  {
    if s != [] {
      WhereCongruent(s[1..], p, q);
    }
  }

  // ---- ilike '%term%' -------------------------------------------------

  /** ASCII lower-casing of one character. */
  function LowerChar(c: char): char
  {
    if 'A' <= c <= 'Z' then (c as int + 32) as char else c
  }

  function Lower(s: string): string
  {
    seq(|s|, i requires 0 <= i < |s| => LowerChar(s[i]))
  }

  /** `pattern` occurs in `text` at some position. */
  predicate Occurs(pattern: string, text: string)
  {
    (|pattern| <= |text| && text[..|pattern|] == pattern)
    || (|text| > 0 && Occurs(pattern, text[1..]))
  }

  /** The window of `text` starting at `i` is `pattern`. */
  predicate OccursAt(pattern: string, text: string, i: int)
  {
    0 <= i <= |text| - |pattern| && text[i..i + |pattern|] == pattern
  }

  /** Occurs is substring containment: some window of the text is the pattern. */
  lemma {:induction false} OccursIffWindow(pattern: string, text: string)
    ensures Occurs(pattern, text) <==> exists i :: OccursAt(pattern, text, i)
  {
    if |pattern| <= |text| && text[..|pattern|] == pattern {
      assert OccursAt(pattern, text, 0);
    }
    if |text| > 0 {
      OccursIffWindow(pattern, text[1..]);
      if exists i :: OccursAt(pattern, text, i) {
        var i :| OccursAt(pattern, text, i);
        if i > 0 {
          assert text[1..][i - 1..i - 1 + |pattern|] == text[i..i + |pattern|];
          assert OccursAt(pattern, text[1..], i - 1);
        }
      }
      if Occurs(pattern, text[1..]) {
        var j :| OccursAt(pattern, text[1..], j);
        assert text[1..][j..j + |pattern|] == text[j + 1..j + 1 + |pattern|];
        assert OccursAt(pattern, text, j + 1);
      }
    }
  }

  /** `Question.question.ilike('%' + term + '%')`, wildcards in the term aside. */
  function MatchesTerm(q: Question, term: string): (b: bool)
    ensures b <==> exists i :: OccursAt(Lower(term), Lower(q.question), i)
  {
    OccursIffWindow(Lower(term), Lower(q.question));
    Occurs(Lower(term), Lower(q.question))
  }

  /** The matching is insensitive to the case of the term. */
  lemma MatchesIgnoreTermCase(q: Question, term: string)
    ensures MatchesTerm(q, term) == MatchesTerm(q, Lower(term))
  {
    assert Lower(Lower(term)) == Lower(term);
  }

  /** The questions whose text contains `term`, ignoring case, in store order. */
  function Search(qs: seq<Question>, term: string): (r: seq<Question>)
    ensures forall q :: q in r <==> q in qs && MatchesTerm(q, term)
    ensures IdsIncreasing(qs) ==> IdsIncreasing(r)
  {
    WhereKeepsIdOrder(qs, q => MatchesTerm(q, term));
    Where(qs, q => MatchesTerm(q, term))
  }

  // ---- primary-key lookups -------------------------------------------

  predicate IdsIncreasing(qs: seq<Question>)
  {
    forall i, j :: 0 <= i < j < |qs| ==> qs[i].id < qs[j].id
  }

  predicate CategoryIdsIncreasing(cs: seq<Category>)
  {
    forall i, j :: 0 <= i < j < |cs| ==> cs[i].id < cs[j].id
  }

  predicate CategoryIdsUnique(cs: seq<Category>)
  {
    forall i, j :: 0 <= i < j < |cs| ==> cs[i].id != cs[j].id
  }

  /** A category table in id order has unique ids. */
  lemma CategoryIdsIncreasingAreUnique(cs: seq<Category>)
    requires CategoryIdsIncreasing(cs)
    ensures CategoryIdsUnique(cs)
  {
  }

  /** `Question.query.filter_by(id=questionId).one_or_none()`, as the index of the row. */
  function FindQuestion(qs: seq<Question>, questionId: int): (r: Option<nat>)
    ensures r.Some? ==> r.value < |qs| && qs[r.value].id == questionId
    ensures r.None? <==> forall q :: q in qs ==> q.id != questionId
  {
    if qs == [] then None
    else if qs[0].id == questionId then Some(0)
    else match FindQuestion(qs[1..], questionId)
      case None => None
      case Some(k) => Some(k + 1)
  }

  /** `Category.query.filter_by(id=categoryId).one_or_none()`. */
  function FindCategory(cs: seq<Category>, categoryId: int): (r: Option<Category>)
    ensures r.Some? ==> r.value in cs && r.value.id == categoryId
    ensures r.None? <==> forall c :: c in cs ==> c.id != categoryId
  {
    if cs == [] then None
    else if cs[0].id == categoryId then Some(cs[0])
    else FindCategory(cs[1..], categoryId)
  }

  /** With unique ids the lookup finds the one category carrying the id. */
  lemma FindCategoryUnique(cs: seq<Category>, c: Category)
    requires CategoryIdsUnique(cs) && c in cs
    ensures FindCategory(cs, c.id) == Some(c)
  {
    var i :| 0 <= i < |cs| && cs[i] == c;
    var f := FindCategory(cs, c.id).value;
    var j :| 0 <= j < |cs| && cs[j] == f;
    assert i == j;
  }

  /** With increasing ids, removing the row found by id leaves no row with that
      id and keeps the ids increasing. */
  lemma RemoveFoundQuestion(qs: seq<Question>, i: nat)
    requires IdsIncreasing(qs) && i < |qs|
    ensures var rest := qs[..i] + qs[i + 1..];
            IdsIncreasing(rest) && |rest| == |qs| - 1 &&
            forall q :: q in rest ==> q.id != qs[i].id
  {
    var rest := qs[..i] + qs[i + 1..];
    assert forall k :: 0 <= k < |rest| ==> rest[k] == if k < i then qs[k] else qs[k + 1];
  }

  // ---- the category dictionary of get_questions ----------------------

  /** `{c.id: c.type for c in cs}` built in order, so a later row overwrites an earlier one. */
  function CategoryTypes(cs: seq<Category>): (m: map<int, string>)
    ensures m.Keys == set c | c in cs :: c.id
  {
    if cs == [] then map[]
    else CategoryTypes(cs[..|cs| - 1])[cs[|cs| - 1].id := cs[|cs| - 1].categoryType]
  }

  /** With unique category ids the dictionary maps every category to its type. */
  lemma {:induction false} CategoryTypesOfUnique(cs: seq<Category>)
    requires CategoryIdsUnique(cs)
    ensures forall c :: c in cs ==> CategoryTypes(cs)[c.id] == c.categoryType
  {
    if cs != [] {
      var init, last := cs[..|cs| - 1], cs[|cs| - 1];
      CategoryTypesOfUnique(init);
      forall c | c in cs
        ensures CategoryTypes(cs)[c.id] == c.categoryType
      {
        if c != last {
          var i :| 0 <= i < |cs| && cs[i] == c;
          assert i < |cs| - 1 && c in init;
        }
      }
    }
  }

  // ---- quiz candidates -----------------------------------------------

  /** The row qualifies for the quiz: not asked before and, when a category is
      given, in that category. */
  predicate Eligible(q: Question, categoryId: Option<int>, previous: seq<int>)
  {
    q.id !in previous && (categoryId.Some? ==> q.category == categoryId.value)
  }

  /** The candidate set of `quizzes_game`, in store order. */
  function QuizCandidates(qs: seq<Question>, categoryId: Option<int>, previous: seq<int>): (r: seq<Question>)
    ensures forall q :: q in r <==> q in qs && q.id !in previous &&
                                    (categoryId.Some? ==> q.category == categoryId.value)
  {
    Where(qs, q => Eligible(q, categoryId, previous))
  }

  /** Every id of the candidate set asked already: no candidate remains. */
  lemma AllAskedLeavesNoCandidate(qs: seq<Question>, categoryId: Option<int>, previous: seq<int>)
    requires forall q :: q in qs && (categoryId.Some? ==> q.category == categoryId.value) ==> q.id in previous
    ensures QuizCandidates(qs, categoryId, previous) == []
  {
    WhereNone(qs, q => Eligible(q, categoryId, previous));
  }
}
