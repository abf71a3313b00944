/** The ranking, filtering and formatting helpers of `UserInteraction`
    (src/user_interaction.py), without their console output. */
module Interaction {
  import opened Wrappers
  import opened Seqs
  import opened Strings
  import opened Vacancies

  /** A salary as the search API returns it: `null` or a `{from, to}` object. */
  type ApiSalary = s: Salary | !s.Text? witness NullSalary

  /** One item of the search API's `items` list (`requirement` is `snippet.requirement`). */
  datatype ApiItem = ApiItem(id: string, name: string, url: string, salary: ApiSalary, requirement: Option<string>)

  const FormattedNoSalary: string := "Не указана"

  /** Python truthiness of a `from`/`to` value: absent, `null` and 0 are false. */
  predicate Truthy(a: Amount)
  {
    a.Num? && a.n != 0
  }

  /** Python truthiness of a salary value: `null` and `{}` are false. */
  predicate SalaryTruthy(s: ApiSalary)
  {
    s != NullSalary && s != Range(Missing, Missing)
  }

  /** `format_salary`. */
  function FormatSalary(s: ApiSalary): string
  {
    if !SalaryTruthy(s) then FormattedNoSalary
    else if Truthy(s.from) && Truthy(s.to) then "от " + IntToString(s.from.n) + " до " + IntToString(s.to.n)
    else if Truthy(s.from) then "от " + IntToString(s.from.n)
    else if Truthy(s.to) then "до " + IntToString(s.to.n)
    else FormattedNoSalary
  }

  /** The number `extract_salary_amount` should read back from a formatted salary. */
  function ShownAmount(s: ApiSalary): int
  {
    if s.Range? && Truthy(s.from) then s.from.n
    else if s.Range? && Truthy(s.to) then s.to.n
    else 0
  }

  /** The formatted salary mentions "от" exactly when `from` is truthy and
      "до" exactly when `to` is truthy; otherwise it is "Не указана". */
  lemma FormatSalaryMentions(s: ApiSalary)
    ensures Contains(FormatSalary(s), "от") <==> s.Range? && Truthy(s.from)
    ensures Contains(FormatSalary(s), "до") <==> s.Range? && Truthy(s.to)
    ensures !(s.Range? && (Truthy(s.from) || Truthy(s.to))) ==> FormatSalary(s) == FormattedNoSalary
  {
    if !SalaryTruthy(s) || !(Truthy(s.from) || Truthy(s.to)) {
      MissingCharNotContained(FormattedNoSalary, "от", 0);
      MissingCharNotContained(FormattedNoSalary, "до", 0);
    } else if Truthy(s.from) && Truthy(s.to) {
      MentionsBoth(s.from.n, s.to.n);
    } else if Truthy(s.from) {
      MentionsLowerOnly(s.from.n);
    } else {
      MentionsUpperOnly(s.to.n);
    }
  }

  /** Formatting and then extracting the amount (src/Vacancy.py) gives back
      the lower bound if there is one, else the upper bound, else 0. */
  lemma ExtractFormattedSalary(s: ApiSalary)
    ensures ExtractSalaryAmount(FormatSalary(s)) == Some(ShownAmount(s))
  {
    var r := FormatSalary(s);
    if !SalaryTruthy(s) || !(Truthy(s.from) || Truthy(s.to)) {
      assert r == FormattedNoSalary;
      ExtractWithoutLetters(FormattedNoSalary);
    } else if Truthy(s.from) && Truthy(s.to) {
      ExtractBothBounds(s.from.n, s.to.n);
    } else if Truthy(s.from) {
      ExtractLowerBound(s.from.n);
    } else {
      ExtractUpperBound(s.to.n);
    }
  }


  /** The cases of tests/test_user_interaction.py:32-34. */
  lemma FormatSalaryExamples()
    ensures FormatSalary(Range(Num(100000), Num(150000))) == "от 100000 до 150000"
    ensures FormatSalary(Range(Num(100000), Missing)) == "от 100000"
    ensures FormatSalary(Range(Missing, Num(150000))) == "до 150000"
  {
    ExampleDigits();
    FormatBoth(100000, 150000);
  }

  lemma FormatBoth(x: int, y: int)
    requires Truthy(Num(x)) && Truthy(Num(y))
    ensures FormatSalary(Range(Num(x), Num(y))) == "от " + IntToString(x) + " до " + IntToString(y)
    ensures FormatSalary(Range(Num(x), Missing)) == "от " + IntToString(x)
    ensures FormatSalary(Range(Missing, Num(y))) == "до " + IntToString(y)
  {
  }

  lemma ExampleDigits()
    ensures IntToString(100000) == "100000" && IntToString(150000) == "150000"
  {
    assert NatToString(1) == "1" && NatToString(15) == "15";
    assert NatToString(10) == "10" && NatToString(150) == "150";
    assert NatToString(100) == "100" && NatToString(1500) == "1500";
    assert NatToString(1000) == "1000" && NatToString(15000) == "15000";
    assert NatToString(10000) == "10000";
  }

  /** A zero bound is treated as absent. */
  lemma FormatSalaryZeroIsAbsent(y: int)
    requires y != 0
    ensures FormatSalary(Range(Num(0), Num(y))) == "до " + IntToString(y)
    ensures FormatSalary(Range(Num(y), Num(0))) == "от " + IntToString(y)
    ensures FormatSalary(Range(Num(0), Num(0))) == FormattedNoSalary
  {
  }

  const OpenTag: string := "<highlighttext>"
  const CloseTag: string := "</highlighttext>"

  /** `re.sub(r"<highlighttext>|</highlighttext>", "", s)`: one left-to-right
      scan; text left behind by a removal is not scanned again. */
  function StripTags(s: string): (r: string)
    ensures |r| <= |s|
    decreases |s|
  {
    if s == [] then []
    else if OpenTag <= s then StripTags(s[|OpenTag|..])
    else if CloseTag <= s then StripTags(s[|CloseTag|..])
    else [s[0]] + StripTags(s[1..])
  }

  /** `remove_highlight_tags`: an empty or absent text is returned as it is. */
  function RemoveHighlightTags(text: Option<string>): (r: Option<string>)
    ensures text.None? || text == Some("") ==> r == text
    ensures text.Some? ==> r.Some? && |r.value| <= |text.value|
  {
    if text.Some? && text.value != "" then Some(StripTags(text.value)) else text
  }

  /** Text containing neither tag is unchanged. */
  lemma {:induction false} StripTagsWithoutTags(s: string)
    requires !Contains(s, OpenTag) && !Contains(s, CloseTag)
    ensures StripTags(s) == s
    decreases |s|
  {
    if s != [] {
      if OpenTag <= s {
        ContainsAt(s, OpenTag, 0);
      }
      if CloseTag <= s {
        ContainsAt(s, CloseTag, 0);
      }
      if Contains(s[1..], OpenTag) {
        ContainsInSuffix(s, OpenTag, 1);
      }
      if Contains(s[1..], CloseTag) {
        ContainsInSuffix(s, CloseTag, 1);
      }
      StripTagsWithoutTags(s[1..]);
      assert [s[0]] + s[1..] == s;
    }
  }

  /** A first character other than '<' starts no tag and is copied. */
  lemma StripTagsPlainStep(s: string)
    requires s != [] && s[0] != '<'
    ensures StripTags(s) == [s[0]] + StripTags(s[1..])
  {
    assert s[0] != OpenTag[0] && s[0] != CloseTag[0];
    assert !(OpenTag <= s) && !(CloseTag <= s);
  }

  /** Text without a '<' is copied through unchanged before the rest is scanned. */
  lemma {:induction false} StripTagsPlainPrefix(a: string, b: string)
    requires '<' !in a
    ensures StripTags(a + b) == a + StripTags(b)
    decreases |a|
  {
    if a == [] {
      assert a + b == b;
    } else {
      var s, t := a + b, a[1..] + b;
      assert s[0] == a[0] && s[1..] == t;
      StripTagsPlainStep(s);
      StripTagsPlainPrefix(a[1..], b);
      calc {
        StripTags(s);
        [a[0]] + StripTags(t);
        [a[0]] + (a[1..] + StripTags(b));
        ([a[0]] + a[1..]) + StripTags(b);
        { assert [a[0]] + a[1..] == a; }
        a + StripTags(b);
      }
    }
  }

  /** A tag at the front is dropped and scanning resumes after it. */
  lemma StripTagsAfterTag(tag: string, t: string)
    requires tag == OpenTag || tag == CloseTag
    ensures StripTags(tag + t) == StripTags(t)
  {
    var s := tag + t;
    assert tag <= s;
    assert s[|tag|..] == t;
    if tag == CloseTag {
      assert s[1] == '/' != OpenTag[1];
      assert !(OpenTag <= s);
    }
  }

  /** Plain text is unchanged. */
  lemma StripTagsPlain(a: string)
    requires '<' !in a
    ensures StripTags(a) == a
  {
    StripTagsPlainPrefix(a, []);
    assert a + [] == a;
  }

  /** A tagged word inside plain text loses exactly its tags
      (tests/test_user_interaction.py:40). */
  lemma StripTaggedWord(a: string, w: string, b: string)
    requires '<' !in a && '<' !in w && '<' !in b
    ensures StripTags(a + OpenTag + w + CloseTag + b) == a + w + b
  {
    var t2 := CloseTag + b;
    var t1 := OpenTag + (w + t2);
    ConcatRight(a, OpenTag, w, CloseTag, b);
    StripTagsPlainPrefix(a, t1);
    StripTagsAfterTag(OpenTag, w + t2);
    StripTagsPlainPrefix(w, t2);
    StripTagsAfterTag(CloseTag, b);
    StripTagsPlain(b);
  }

  lemma ConcatRight(p: string, q: string, r: string, t: string, u: string)
    ensures p + q + r + t + u == p + (q + (r + (t + u)))
    ensures p + (r + u) == p + r + u
  {
  }

  /** The cases of tests/test_user_interaction.py:40-42. */
  lemma RemoveHighlightTagsExamples()
    ensures RemoveHighlightTags(Some("Текст " + OpenTag + "с тегами" + CloseTag)) == Some("Текст с тегами")
    ensures RemoveHighlightTags(Some("Без тегов")) == Some("Без тегов")
    ensures RemoveHighlightTags(Some("")) == Some("")
  {
    StripTaggedWord("Текст ", "с тегами", "");
    assert "Текст " + OpenTag + "с тегами" + CloseTag + "" == "Текст " + OpenTag + "с тегами" + CloseTag;
    assert "Текст " + "с тегами" + "" == "Текст с тегами";
    StripTagsPlain("Без тегов");
  }

  /** One pass only: a tag split by another tag is joined by the removal and
      then kept; the result still holds a tag, which a second pass removes. */
  lemma StripTagsSinglePass()
    ensures StripTags(OpenTag[..1] + OpenTag + OpenTag[1..]) == OpenTag
    ensures StripTags(OpenTag) == []
  {
    var head, rest := OpenTag[..1], OpenTag[1..];
    var s := head + (OpenTag + rest);
    assert head + OpenTag + rest == s;
    assert '<' !in rest;
    assert s[1] == '<' != OpenTag[1] && s[1] != CloseTag[1];
    assert !(OpenTag <= s) && !(CloseTag <= s);
    assert s[1..] == OpenTag + rest;
    StripTagsAfterTag(OpenTag, rest);
    StripTagsPlain(rest);
    assert head + rest == OpenTag;
    StripTagsAfterTag(OpenTag, []);
    assert OpenTag + [] == OpenTag;
  }

  /** `get_salary_from`: the salary's `from` when the salary and its `from`
      are truthy, else 0. */
  function SalaryFromKey(v: ApiItem): int
  {
    if SalaryTruthy(v.salary) && Truthy(v.salary.from) then v.salary.from.n else 0
  }

  predicate SortedBySalaryDesc(s: seq<ApiItem>)
  {
    forall i, j :: 0 <= i < j < |s| ==> SalaryFromKey(s[i]) >= SalaryFromKey(s[j])
  }

  function KeyIs(k: int): ApiItem -> bool
  {
    (v: ApiItem) => SalaryFromKey(v) == k
  }

  /** Putting in front an item whose key is at least the first key keeps a sequence descending. */
  lemma SortedCons(y: ApiItem, t: seq<ApiItem>)
    requires SortedBySalaryDesc(t) && (t == [] || SalaryFromKey(y) >= SalaryFromKey(t[0]))
    ensures SortedBySalaryDesc([y] + t)
  {
    var r := [y] + t;
    forall i, j | 0 <= i < j < |r| ensures SalaryFromKey(r[i]) >= SalaryFromKey(r[j]) {
      if i == 0 && j > 1 {
        assert r[j] == t[j - 1] && SalaryFromKey(t[0]) >= SalaryFromKey(t[j - 1]);
      }
    }
  }

  /** Insert `x` into a descending sequence before the first element whose key is not larger. */
  function Insert(x: ApiItem, s: seq<ApiItem>): (r: seq<ApiItem>)
    requires SortedBySalaryDesc(s)
    ensures |r| == |s| + 1 && (r[0] == x || (s != [] && r[0] == s[0]))
    ensures SortedBySalaryDesc(r)
    ensures multiset(r) == multiset(s) + multiset{x}
  {
    if s == [] || SalaryFromKey(s[0]) <= SalaryFromKey(x) then
      SortedCons(x, s);
      [x] + s
    else
      SortedTail(s);
      var t := Insert(x, s[1..]);
      InsertBehind(x, s, t);
      [s[0]] + t
  }

  lemma SortedTail(s: seq<ApiItem>)
    requires SortedBySalaryDesc(s) && s != []
    ensures SortedBySalaryDesc(s[1..])
  {
    forall i, j | 0 <= i < j < |s| - 1 ensures SalaryFromKey(s[1..][i]) >= SalaryFromKey(s[1..][j]) {
      assert s[1..][i] == s[i + 1] && s[1..][j] == s[j + 1];
    }
  }

  /** Keeping the first element in front of the insertion into the rest. */
  lemma InsertBehind(x: ApiItem, s: seq<ApiItem>, t: seq<ApiItem>)
    requires SortedBySalaryDesc(s) && s != [] && SalaryFromKey(s[0]) > SalaryFromKey(x)
    requires SortedBySalaryDesc(t) && |t| > 0 && (t[0] == x || (|s| > 1 && t[0] == s[1]))
    requires multiset(t) == multiset(s[1..]) + multiset{x}
    ensures SortedBySalaryDesc([s[0]] + t)
    ensures multiset([s[0]] + t) == multiset(s) + multiset{x}
  {
    SortedCons(s[0], t);
    assert s == [s[0]] + s[1..];
  }

  /** Inserting `x` puts it first among the items that share its key and
      leaves the order of every other key's items alone. */
  lemma {:induction false} InsertStable(x: ApiItem, s: seq<ApiItem>, k: int)
    requires SortedBySalaryDesc(s)
    ensures Keep(Insert(x, s), KeyIs(k)) == if SalaryFromKey(x) == k then [x] + Keep(s, KeyIs(k)) else Keep(s, KeyIs(k))
  {
    if s == [] || SalaryFromKey(s[0]) <= SalaryFromKey(x) {
      assert Insert(x, s) == [x] + s;
      assert ([x] + s)[1..] == s;
    } else {
      var t := Insert(x, s[1..]);
      assert Insert(x, s) == [s[0]] + t;
      assert ([s[0]] + t)[1..] == t;
      InsertStable(x, s[1..], k);
    }
  }

  /** `sorted(vacancies, key=get_salary_from, reverse=True)`: a permutation
      of the input, non-increasing in the key. */
  function SortBySalaryDesc(s: seq<ApiItem>): (r: seq<ApiItem>)
    ensures multiset(r) == multiset(s)
    ensures SortedBySalaryDesc(r)
  {
    if s == [] then []
    else
      assert s == [s[0]] + s[1..];
      Insert(s[0], SortBySalaryDesc(s[1..]))
  }

  /** The sort is stable: the items sharing any one key keep their input order. */
  lemma {:induction false} SortStable(s: seq<ApiItem>, k: int)
    ensures Keep(SortBySalaryDesc(s), KeyIs(k)) == Keep(s, KeyIs(k))
  {
    if s != [] {
      SortStable(s[1..], k);
      InsertStable(s[0], SortBySalaryDesc(s[1..]), k);
    }
  }

  /** The list `display_top_vacancies(vacancies, top_n)` returns. */
  function TopVacancies(s: seq<ApiItem>, n: int): seq<ApiItem>
  {
    PySliceTo(SortBySalaryDesc(s), n)
  }

  /** The top `n`: at most `n` items, a prefix of the stable descending sort,
      themselves sorted and drawn from the input; every item left out has a
      key no larger than any item taken. */
  lemma TopVacanciesResult(s: seq<ApiItem>, n: int, r: seq<ApiItem>)
    requires n >= 0 && r == TopVacancies(s, n)
    ensures |r| == if n < |s| then n else |s|
    ensures r <= SortBySalaryDesc(s)
    ensures SortedBySalaryDesc(r)
    ensures multiset(r) <= multiset(s)
    ensures forall x, y :: x in multiset(s) - multiset(r) && y in r ==> SalaryFromKey(y) >= SalaryFromKey(x)
  {
    var sorted := SortBySalaryDesc(s);
    assert multiset(sorted) == multiset(s);
    SortedPrefix(sorted, r);
  }

  /** A prefix of a descending sequence is descending, and nothing left
      behind it has a larger key than anything in it. */
  lemma SortedPrefix(sorted: seq<ApiItem>, r: seq<ApiItem>)
    requires SortedBySalaryDesc(sorted) && r <= sorted
    ensures SortedBySalaryDesc(r)
    ensures multiset(r) <= multiset(sorted)
    ensures forall x, y :: x in multiset(sorted) - multiset(r) && y in r ==> SalaryFromKey(y) >= SalaryFromKey(x)
  {
    var rest := sorted[|r|..];
    assert sorted == r + rest;
    LeftOutIsRest(sorted, r, rest);
    PrefixSorted(sorted, r);
    forall x, y | x in multiset(sorted) - multiset(r) && y in r
      ensures SalaryFromKey(y) >= SalaryFromKey(x)
    {
      LeftOutNotLarger(sorted, |r|, x, y);
    }
  }

  lemma PrefixSorted(sorted: seq<ApiItem>, r: seq<ApiItem>)
    requires SortedBySalaryDesc(sorted) && r <= sorted
    ensures SortedBySalaryDesc(r)
  {
    forall i, j | 0 <= i < j < |r| ensures SalaryFromKey(r[i]) >= SalaryFromKey(r[j]) {
      assert r[i] == sorted[i] && r[j] == sorted[j];
    }
  }

  lemma LeftOutIsRest(sorted: seq<ApiItem>, r: seq<ApiItem>, rest: seq<ApiItem>)
    requires sorted == r + rest
    ensures multiset(r) <= multiset(sorted)
    ensures multiset(sorted) - multiset(r) == multiset(rest)
  {
    assert multiset(sorted) == multiset(r) + multiset(rest);
  }

  /** In a descending sequence, nothing behind position `m` has a larger key
      than anything before it. */
  lemma LeftOutNotLarger(sorted: seq<ApiItem>, m: nat, x: ApiItem, y: ApiItem)
    requires SortedBySalaryDesc(sorted) && m <= |sorted|
    requires x in sorted[m..] && y in sorted[..m]
    ensures SalaryFromKey(y) >= SalaryFromKey(x)
  {
    var j :| 0 <= j < |sorted[m..]| && sorted[m..][j] == x;
    var i :| 0 <= i < m && sorted[..m][i] == y;
    assert sorted[i] == y && sorted[m + j] == x;
  }

  /** Among items with equal keys, the top `n` are the earliest in the input,
      in input order. */
  lemma TopVacanciesStable(s: seq<ApiItem>, n: int, k: int)
    ensures Keep(TopVacancies(s, n), KeyIs(k)) <= Keep(s, KeyIs(k))
  {
    KeepPrefix(TopVacancies(s, n), SortBySalaryDesc(s), KeyIs(k));
    SortStable(s, k);
  }

  /** `keyword.lower() in requirement.lower()` with a non-empty requirement. */
  predicate MentionsKeyword(v: ApiItem, keyword: string)
  {
    v.requirement.Some? && v.requirement.value != "" && Contains(Lower(v.requirement.value), Lower(keyword))
  }

  function Searcher(keyword: string): ApiItem -> bool
  {
    (v: ApiItem) => MentionsKeyword(v, keyword)
  }

  /** The list `search_vacancies_by_description` returns. */
  function SearchByDescription(items: seq<ApiItem>, keyword: string): seq<ApiItem>
  {
    Keep(items, Searcher(keyword))
  }

  /** The search keeps, in order, exactly the items whose requirement is
      non-empty and contains the keyword, ignoring case. */
  lemma SearchResult(items: seq<ApiItem>, keyword: string)
    ensures IsSubsequence(SearchByDescription(items, keyword), items)
    ensures forall v :: v in SearchByDescription(items, keyword) <==> v in items && MentionsKeyword(v, keyword)
    ensures forall v :: multiset(SearchByDescription(items, keyword))[v] == if MentionsKeyword(v, keyword) then multiset(items)[v] else 0
  {
    KeepIsSubsequence(items, Searcher(keyword));
    forall v ensures multiset(SearchByDescription(items, keyword))[v] == if MentionsKeyword(v, keyword) then multiset(items)[v] else 0 {
      KeepCount(items, Searcher(keyword), v);
    }
    forall v ensures v in SearchByDescription(items, keyword) <==> v in items && MentionsKeyword(v, keyword) {
      KeepMembership(items, Searcher(keyword), v);
    }
  }

  /** The keyword's case does not matter. */
  lemma SearchIgnoresKeywordCase(items: seq<ApiItem>, keyword: string)
    ensures SearchByDescription(items, Lower(keyword)) == SearchByDescription(items, keyword)
  {
    LowerIdempotent(keyword);
    KeepCongruent(items, Searcher(Lower(keyword)), Searcher(keyword));
  }

  /** The empty keyword keeps every item with a non-empty requirement. */
  lemma SearchEmptyKeyword(items: seq<ApiItem>)
    ensures forall v :: v in SearchByDescription(items, "") <==> v in items && v.requirement.Some? && v.requirement.value != ""
    ensures forall v :: multiset(SearchByDescription(items, ""))[v] == if v.requirement.Some? && v.requirement.value != "" then multiset(items)[v] else 0
  {
    SearchResult(items, "");
    forall v ensures v in SearchByDescription(items, "") <==> v in items && v.requirement.Some? && v.requirement.value != "" {
      KeepMembership(items, Searcher(""), v);
      if v.requirement.Some? {
        ContainsAt(Lower(v.requirement.value), Lower(""), 0);
      }
    }
  }
}
