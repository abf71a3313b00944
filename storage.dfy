/** The JSON-file vacancy store (`JSONVacancyStorage`, src/Filtered_vacancy.py).
    The file is the field `file`: `None` when it is missing or not valid JSON,
    otherwise the array of records it holds. */
module Storage {
  import opened Wrappers
  import opened Seqs
  import opened Vacancies

  /** One stored object. `title` is `.get("title")` (`None` when absent or null);
      `salary` is `None` when the key is absent. The store never reads the
      other three fields. */
  datatype Record = Record(id: string, title: Option<string>, link: string, salary: Option<Salary>, description: Option<string>)

  /** `vacancy.__dict__`: the record written for a vacancy. */
  function ToRecord(v: Vacancy): Record
  {
    Record(v.id, Some(v.title), v.link, Some(v.salary), v.description)
  }

  /** Reading a stored record back as a vacancy; `None` when its title or
      salary is absent. */
  function FromRecord(r: Record): Option<Vacancy>
  {
    if r.title.None? || r.salary.None? then None
    else Some(Vacancy(r.id, r.title.value, r.link, r.salary.value, r.description))
  }

  /** The stored record keeps the whole vacancy, so distinct vacancies are
      stored as distinct records. */
  lemma ToRecordRoundTrip(v: Vacancy, w: Vacancy)
    ensures FromRecord(ToRecord(v)) == Some(v)
    ensures ToRecord(v) == ToRecord(w) ==> v == w
  {
  }

  /** The keyword arguments of `get_vacancies`; `None` means "not supplied". */
  datatype Criteria = Criteria(title: Option<string>, minSalary: Option<int>, maxSalary: Option<int>)

  const NoCriteria := Criteria(None, None, None)

  /** `.get` called on a salary that is `null` or a string raises `AttributeError`. */
  datatype QueryError = SalaryNotAnObject

  /** `vacancy.get("salary", {})` as a pair of `from` and `to` values; `None`
      when the salary is not an object. */
  function SalaryObject(v: Record): Option<(Amount, Amount)>
  {
    match v.salary
    case None => Some((Missing, Missing))
    case Some(Range(f, t)) => Some((f, t))
    case Some(_) => None
  }

  predicate NeedsSalary(c: Criteria)
  {
    c.minSalary.Some? || c.maxSalary.Some?
  }

  predicate PassesTitle(v: Record, t: string)
  {
    v.title == Some(t)
  }

  /** `from` with a missing key read as 0; a `null` `from` never passes. */
  predicate PassesMin(v: Record, m: int)
  {
    match SalaryObject(v)
    case Some((Missing, _)) => 0 >= m
    case Some((Num(n), _)) => n >= m
    case _ => false
  }

  /** `to` with a missing key read as +infinity, so only a present integer can pass. */
  predicate PassesMax(v: Record, m: int)
  {
    match SalaryObject(v)
    case Some((_, Num(n))) => n <= m
    case _ => false
  }

  /** A record passes when it passes every supplied criterion. */
  predicate Passes(v: Record, c: Criteria)
  {
    && (c.title.Some? ==> PassesTitle(v, c.title.value))
    && (c.minSalary.Some? ==> PassesMin(v, c.minSalary.value))
    && (c.maxSalary.Some? ==> PassesMax(v, c.maxSalary.value))
  }

  function Matcher(c: Criteria): Record -> bool
  {
    (v: Record) => Passes(v, c)
  }

  predicate RaisesOn(v: Record, c: Criteria)
  {
    NeedsSalary(c) && SalaryObject(v).None?
  }

  /** What `get_vacancies(**c)` returns for the records `s` of a readable file. */
  function Query(s: seq<Record>, c: Criteria): Result<seq<Record>, QueryError>
  {
    if exists i :: 0 <= i < |s| && RaisesOn(s[i], c) then Failure(SalaryNotAnObject)
    else Success(Keep(s, Matcher(c)))
  }

  function TitleKeeper(t: string): Record -> bool
  {
    (v: Record) => v.title != Some(t)
  }

  /** The records `delete_vacancy_by_title(t)` keeps. */
  function RemoveTitle(s: seq<Record>, t: string): seq<Record>
  {
    Keep(s, TitleKeeper(t))
  }

  /** With no criteria every stored record is returned, in storage order. */
  lemma QueryNoCriteria(s: seq<Record>)
    ensures Query(s, NoCriteria) == Success(s)
  {
    KeepAll(s, Matcher(NoCriteria));
  }

  /** A query fails exactly when a salary bound is supplied and some stored
      salary is `null` or a string; a title-only query never fails. */
  lemma QueryFailure(s: seq<Record>, c: Criteria)
    ensures Query(s, c).Failure? <==> NeedsSalary(c) && exists v :: v in s && SalaryObject(v).None?
  {
    if NeedsSalary(c) && exists v :: v in s && SalaryObject(v).None? {
      var v :| v in s && SalaryObject(v).None?;
      var i :| 0 <= i < |s| && s[i] == v;
      assert RaisesOn(s[i], c);
    }
  }

  /** A successful query returns an order-preserving subsequence of the store
      holding exactly the stored records that pass every supplied criterion. */
  lemma QueryResult(s: seq<Record>, c: Criteria, r: seq<Record>)
    requires Query(s, c) == Success(r)
    ensures IsSubsequence(r, s)
    ensures forall v :: v in r <==> v in s && Passes(v, c)
    ensures forall v :: multiset(r)[v] == if Passes(v, c) then multiset(s)[v] else 0
  {
    KeepIsSubsequence(s, Matcher(c));
    forall v ensures v in r <==> v in s && Passes(v, c) {
      KeepMembership(s, Matcher(c), v);
    }
    forall v ensures multiset(r)[v] == if Passes(v, c) then multiset(s)[v] else 0 {
      KeepCount(s, Matcher(c), v);
    }
  }

  /** `get_vacancies(title=t)`: exactly the records titled `t`. */
  lemma QueryByTitle(s: seq<Record>, t: string)
    ensures Query(s, Criteria(Some(t), None, None)).Success?
    ensures forall v :: v in Query(s, Criteria(Some(t), None, None)).value <==> v in s && v.title == Some(t)
    ensures forall v :: multiset(Query(s, Criteria(Some(t), None, None)).value)[v] == if v.title == Some(t) then multiset(s)[v] else 0
  {
    QueryFailure(s, Criteria(Some(t), None, None));
    QueryResult(s, Criteria(Some(t), None, None), Query(s, Criteria(Some(t), None, None)).value);
  }

  /** `get_vacancies(min_salary=m)`: a missing `from` counts as 0, a `null` one
      is dropped; a missing salary key counts as `{}`. */
  lemma QueryByMinSalary(s: seq<Record>, m: int, r: seq<Record>)
    requires Query(s, Criteria(None, Some(m), None)) == Success(r)
    ensures forall v :: v in r <==> (
      && v in s
      && (|| (v.salary == None && 0 >= m)
          || (v.salary.Some? && v.salary.value.Range? && v.salary.value.from == Missing && 0 >= m)
          || (v.salary.Some? && v.salary.value.Range? && v.salary.value.from.Num? && v.salary.value.from.n >= m)))
    ensures forall v :: multiset(r)[v] == if v in r then multiset(s)[v] else 0
  {
    QueryResult(s, Criteria(None, Some(m), None), r);
  }

  /** `get_vacancies(max_salary=m)`: only a present, non-null `to` that is at
      most `m` passes; a missing `to` (read as +infinity) never does. */
  lemma QueryByMaxSalary(s: seq<Record>, m: int, r: seq<Record>)
    requires Query(s, Criteria(None, None, Some(m))) == Success(r)
    ensures forall v :: v in r <==> (
      && v in s
      && v.salary.Some? && v.salary.value.Range? && v.salary.value.to.Num? && v.salary.value.to.n <= m)
    ensures forall v :: multiset(r)[v] == if v in r then multiset(s)[v] else 0
  {
    QueryResult(s, Criteria(None, None, Some(m)), r);
  }

  /** After deleting `t`: no record titled `t` is left, every other record
      survives in its original order, and a title query for `t` finds nothing. */
  lemma RemoveTitleResult(s: seq<Record>, t: string)
    ensures forall v :: v in RemoveTitle(s, t) <==> v in s && v.title != Some(t)
    ensures IsSubsequence(RemoveTitle(s, t), s)
    ensures forall v :: multiset(RemoveTitle(s, t))[v] == if v.title != Some(t) then multiset(s)[v] else 0
    ensures Query(RemoveTitle(s, t), Criteria(Some(t), None, None)) == Success([])
  {
    forall v ensures v in RemoveTitle(s, t) <==> v in s && v.title != Some(t) {
      KeepMembership(s, TitleKeeper(t), v);
    }
    KeepIsSubsequence(s, TitleKeeper(t));
    forall v ensures multiset(RemoveTitle(s, t))[v] == if v.title != Some(t) then multiset(s)[v] else 0 {
      KeepCount(s, TitleKeeper(t), v);
    }
    var rest := RemoveTitle(s, t);
    forall i | 0 <= i < |rest| ensures !Matcher(Criteria(Some(t), None, None))(rest[i]) {
      assert rest[i] in rest;
    }
    KeepNone(rest, Matcher(Criteria(Some(t), None, None)));
  }

  /** Deleting a title that no record carries changes nothing. */
  lemma RemoveAbsentTitle(s: seq<Record>, t: string)
    requires forall v :: v in s ==> v.title != Some(t)
    ensures RemoveTitle(s, t) == s
  {
    forall i | 0 <= i < |s| ensures TitleKeeper(t)(s[i]) {
      assert s[i] in s;
    }
    KeepAll(s, TitleKeeper(t));
  }

  class JsonVacancyStorage {
    /** The file's contents: `None` when missing or unparsable. */
    var file: Option<seq<Record>>

    /** What every operation reads: `json.load`, or `[]` on failure. */
    function Loaded(): seq<Record>
      reads this
    {
      if file.Some? then file.value else []
    }

    /** `__init__`: a missing or corrupt file is rewritten as `[]`; a readable one is kept. */
    constructor (onDisk: Option<seq<Record>>)
      ensures file == Some(if onDisk.Some? then onDisk.value else [])
    {
      if onDisk.Some? {
        file := onDisk;
      } else {
        file := Some([]);
      }
    }

    /** `add_vacancy`: append the vacancy's fields to whatever could be read. */
    method AddVacancy(v: Vacancy)
      modifies this
      ensures file == Some(old(Loaded()) + [ToRecord(v)])
      ensures old(file).None? ==> file == Some([ToRecord(v)])
    {
      var vacancies := Loaded();
      assert [] + [ToRecord(v)] == [ToRecord(v)];
      vacancies := vacancies + [ToRecord(v)];
      file := Some(vacancies);
    }

    /** `get_vacancies`: one pass over the stored records with a `match` flag. */
    method GetVacancies(c: Criteria) returns (r: Result<seq<Record>, QueryError>)
      ensures file.None? ==> r == Success([])
      ensures file.Some? ==> r == Query(file.value, c)
    {
      if file.None? {
        return Success([]);
      }
      var vacancies := file.value;
      var filtered: seq<Record> := [];
      var i := 0;
      while i < |vacancies|
        invariant 0 <= i <= |vacancies|
        invariant forall j :: 0 <= j < i ==> !RaisesOn(vacancies[j], c)
        invariant filtered == Keep(vacancies[..i], Matcher(c))
      {
        var vacancy := vacancies[i];
        var matched := true;
        if c.title.Some? && vacancy.title != Some(c.title.value) {
          matched := false;
        }
        if c.minSalary.Some? {
          var salary := SalaryObject(vacancy);
          if salary.None? {
            return Failure(SalaryNotAnObject);
          }
          var from := if salary.value.0 == Missing then Num(0) else salary.value.0;
          if from.Null? || from.n < c.minSalary.value {
            matched := false;
          }
        }
        if c.maxSalary.Some? {
          var salary := SalaryObject(vacancy);
          if salary.None? {
            return Failure(SalaryNotAnObject);
          }
          var to := salary.value.1;
          if to.Missing? || to.Null? || to.n > c.maxSalary.value {
            matched := false;
          }
        }
        assert matched == Passes(vacancy, c);
        KeepSnoc(vacancies[..i], vacancy, Matcher(c));
        assert vacancies[..i + 1] == vacancies[..i] + [vacancy];
        if matched {
          filtered := filtered + [vacancy];
        }
        i := i + 1;
      }
      assert vacancies[..i] == vacancies;
      return Success(filtered);
    }

    /** `delete_vacancy_by_title`: drop every record titled `t`; an unreadable file is left alone. */
    method DeleteVacancyByTitle(t: string)
      modifies this
      ensures old(file).None? ==> file == old(file)
      ensures old(file).Some? ==> file == Some(RemoveTitle(old(file.value), t))
    {
      if file.None? {
        return;
      }
      file := Some(RemoveTitle(file.value, t));
    }
  }

  /** A store whose file is missing, after one `add_vacancy`, lists exactly
      that vacancy's fields (tests/test_Filtered_vacancy.py:16-29). */
  method AddToMissingFile(v: Vacancy) returns (r: Result<seq<Record>, QueryError>)
    ensures r == Success([ToRecord(v)])
  {
    var store := new JsonVacancyStorage(None);
    store.AddVacancy(v);
    r := store.GetVacancies(NoCriteria);
    QueryNoCriteria([ToRecord(v)]);
  }

  /** Two vacancies added, queried by the second one's title
      (tests/test_Filtered_vacancy.py:32-52). */
  method QuerySecondTitle(v1: Vacancy, v2: Vacancy) returns (r: Result<seq<Record>, QueryError>)
    requires v1.title != v2.title
    ensures r == Success([ToRecord(v2)])
  {
    var store := new JsonVacancyStorage(None);
    store.AddVacancy(v1);
    store.AddVacancy(v2);
    r := store.GetVacancies(Criteria(Some(v2.title), None, None));
    assert Keep([ToRecord(v2)], Matcher(Criteria(Some(v2.title), None, None))) == [ToRecord(v2)];
  }

  /** A vacancy added and then deleted by its title leaves the store empty
      (tests/test_Filtered_vacancy.py:55-66). */
  method AddThenDelete(v: Vacancy) returns (r: Result<seq<Record>, QueryError>)
    ensures r == Success([])
  {
    var store := new JsonVacancyStorage(None);
    store.AddVacancy(v);
    store.DeleteVacancyByTitle(v.title);
    r := store.GetVacancies(NoCriteria);
    QueryNoCriteria([]);
  }
}
