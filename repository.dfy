/**
 * The persistence collaborators, as abstract tables. The relational store
 * behind them is not modelled; what is kept is what the services can
 * observe: which rows exist, which sentinel a missing row is reported
 * with, and that any query may fail while the database is unavailable
 * (`fault`, an error that wraps no domain sentinel).
 */
module Repository {
  import opened Domain

  /** The users table: rows by id and the unique email index. */
  datatype UserTable = UserTable(byId: map<string, User>, idByEmail: map<string, string>, fault: Option<Error>)

  /** Ids are primary keys, emails are unique, and the two indexes agree. */
  ghost predicate TableValid(t: UserTable)
  {
    && (forall id :: id in t.byId ==>
          t.byId[id].id == id && t.byId[id].email in t.idByEmail && t.idByEmail[t.byId[id].email] == id)
    && (forall e :: e in t.idByEmail ==> t.idByEmail[e] in t.byId && t.byId[t.idByEmail[e]].email == e)
    && (t.fault.Some? ==> t.fault.value.chain == {})
  }

  /** `GetByID`; a missing user is reported with the question-not-found sentinel. */
  function FindById(t: UserTable, id: string): Result<User>
  {
    if t.fault.Some? then Failure(t.fault.value)
    else if id in t.byId then Success(t.byId[id])
    else Failure(SentinelError(QuestionNotFound))
  }

  /** `GetByEmail`: an exact, case-sensitive match on the stored email. */
  function FindByEmail(t: UserTable, email: string): Result<User>
    requires TableValid(t)
  {
    if t.fault.Some? then Failure(t.fault.value)
    else if email in t.idByEmail then Success(t.byId[t.idByEmail[email]])
    else Failure(SentinelError(QuestionNotFound))
  }

  /** The database's refusal of a second row with the same key or email; its exact text is the database's own. */
  const UniqueViolation: Error := NewError("duplicate key value violates unique constraint")

  /** `Create`: the new row and its index entry, or the store's error. */
  function Insert(t: UserTable, u: User): (r: (Option<Error>, UserTable))
    requires TableValid(t)
    ensures TableValid(r.1)
    ensures r.0.None? <==> t.fault.None? && u.id !in t.byId && u.email !in t.idByEmail
    ensures r.0.Some? ==> r.1 == t && r.0.value.chain == {}
    ensures r.0.None? ==> FindById(r.1, u.id) == Success(u) && FindByEmail(r.1, u.email) == Success(u)
    ensures r.0.None? ==> r.1.byId == t.byId[u.id := u] && r.1.idByEmail == t.idByEmail[u.email := u.id]
  {
    if t.fault.Some? then (t.fault, t)
    else if u.id in t.byId || u.email in t.idByEmail then (Some(UniqueViolation), t)
    else (None, UserTable(t.byId[u.id := u], t.idByEmail[u.email := u.id], t.fault))
  }

  class UserRepository {
    var byId: map<string, User>
    var idByEmail: map<string, string>
    var fault: Option<Error>

    function Table(): UserTable
      reads this
    {
      UserTable(byId, idByEmail, fault)
    }

    ghost predicate Valid()
      reads this
    {
      TableValid(Table())
    }

    constructor ()
      ensures Valid() && Table() == UserTable(map[], map[], None)
    {
      byId, idByEmail, fault := map[], map[], None;
    }

    method GetByID(id: string) returns (r: Result<User>)
      requires Valid()
      ensures r == FindById(Table(), id)
      ensures r.Success? ==> r.value.id == id
      ensures r.Failure? && fault.None? ==> r.error == SentinelError(QuestionNotFound)
    {
      if fault.Some? {
        return Failure(fault.value);
      }
      if id !in byId {
        return Failure(SentinelError(QuestionNotFound));
      }
      return Success(byId[id]);
    }

    method GetByEmail(email: string) returns (r: Result<User>)
      requires Valid()
      ensures r == FindByEmail(Table(), email)
      ensures r.Success? ==> r.value.email == email
      ensures r.Failure? && fault.None? ==> r.error == SentinelError(QuestionNotFound)
    {
      if fault.Some? {
        return Failure(fault.value);
      }
      if email !in idByEmail {
        return Failure(SentinelError(QuestionNotFound));
      }
      return Success(byId[idByEmail[email]]);
    }

    method Create(u: User) returns (err: Option<Error>)
      requires Valid()
      modifies this
      ensures Valid()
      ensures (err, Table()) == Insert(old(Table()), u)
    {
      if fault.Some? {
        return fault;
      }
      if u.id in byId || u.email in idByEmail {
        return Some(UniqueViolation);
      }
      byId := byId[u.id := u];
      idByEmail := idByEmail[u.email := u.id];
      return None;
    }
  }

  /** The questions table; ids come from an increasing sequence. */
  class QuestionRepository {
    var rows: map<nat, Question>
    var nextId: nat
    var fault: Option<Error>

    ghost predicate Valid()
      reads this
    {
      && (forall id :: id in rows ==> id < nextId && rows[id].id == id)
      && (fault.Some? ==> fault.value.chain == {})
    }

    constructor ()
      ensures Valid() && rows == map[] && fault == None
    {
      rows, nextId, fault := map[], 1, None;
    }

    /** `Create`: stores the question under a new id and hands back the stored row. */
    method Create(q: Question) returns (stored: Question, err: Option<Error>)
      requires Valid()
      modifies this
      ensures Valid() && fault == old(fault)
      ensures err == old(fault)
      ensures err.Some? ==> rows == old(rows)
      ensures err.None? ==> stored.id !in old(rows) && stored.text == q.text && rows == old(rows)[stored.id := stored]
    {
      stored := q;
      if fault.Some? {
        return stored, fault;
      }
      stored := Question(nextId, q.text);
      rows := rows[nextId := stored];
      nextId := nextId + 1;
      err := None;
    }

    method GetByID(id: nat) returns (r: Result<Question>)
      requires Valid()
      ensures fault.Some? ==> r == Failure(fault.value)
      ensures fault.None? ==> r == if id in rows then Success(rows[id]) else Failure(SentinelError(QuestionNotFound))
    {
      if fault.Some? {
        return Failure(fault.value);
      }
      if id !in rows {
        return Failure(SentinelError(QuestionNotFound));
      }
      return Success(rows[id]);
    }

    /** `GetAll`: every row once, in no particular order. */
    method GetAll() returns (r: Result<seq<Question>>)
      requires Valid()
      ensures fault.Some? ==> r == Failure(fault.value)
      ensures fault.None? ==> r.Success? && |r.value| == |rows|
      ensures fault.None? ==> forall q :: q in r.value <==> q in rows.Values
    {
      if fault.Some? {
        return Failure(fault.value);
      }
      var pending := rows.Keys;
      var found: seq<Question> := [];
      while pending != {}
        invariant pending <= rows.Keys
        invariant forall i :: 0 <= i < |found| ==> found[i].id in rows.Keys - pending && rows[found[i].id] == found[i]
        invariant forall k :: k in rows.Keys - pending ==> rows[k] in found
        invariant |found| + |pending| == |rows.Keys|
        decreases pending
      {
        var k :| k in pending;
        found := found + [rows[k]];
        pending := pending - {k};
      }
      assert rows.Keys - pending == rows.Keys;
      return Success(found);
    }

    /** `Delete`: a delete that touches no row, including a failed one, reports the question as missing. */
    method Delete(id: nat) returns (err: Option<Error>)
      requires Valid()
      modifies this
      ensures Valid() && fault == old(fault)
      ensures old(fault).None? && id in old(rows) ==> err == None && rows == old(rows) - {id}
      ensures old(fault).Some? || id !in old(rows) ==> err == Some(SentinelError(QuestionNotFound)) && rows == old(rows)
    {
      if fault.Some? || id !in rows {
        return Some(SentinelError(QuestionNotFound));
      }
      rows := rows - {id};
      return None;
    }
  }

  /** The answers table. */
  class AnswerRepository {
    var rows: map<nat, Answer>
    var nextId: nat
    var fault: Option<Error>

    ghost predicate Valid()
      reads this
    {
      && (forall id :: id in rows ==> id < nextId && rows[id].id == id)
      && (fault.Some? ==> fault.value.chain == {})
    }

    constructor ()
      ensures Valid() && rows == map[] && fault == None
    {
      rows, nextId, fault := map[], 1, None;
    }

    method Create(a: Answer) returns (stored: Answer, err: Option<Error>)
      requires Valid()
      modifies this
      ensures Valid() && fault == old(fault)
      ensures err == old(fault)
      ensures err.Some? ==> rows == old(rows)
      ensures err.None? ==> stored.id !in old(rows) && stored == a.(id := stored.id) && rows == old(rows)[stored.id := stored]
    {
      stored := a;
      if fault.Some? {
        return stored, fault;
      }
      stored := a.(id := nextId);
      rows := rows[nextId := stored];
      nextId := nextId + 1;
      err := None;
    }

    method GetByID(id: nat) returns (r: Result<Answer>)
      requires Valid()
      ensures fault.Some? ==> r == Failure(fault.value)
      ensures fault.None? ==> r == if id in rows then Success(rows[id]) else Failure(SentinelError(AnswerNotFound))
    {
      if fault.Some? {
        return Failure(fault.value);
      }
      if id !in rows {
        return Failure(SentinelError(AnswerNotFound));
      }
      return Success(rows[id]);
    }

    method Delete(id: nat) returns (err: Option<Error>)
      requires Valid()
      modifies this
      ensures Valid() && fault == old(fault)
      ensures old(fault).None? && id in old(rows) ==> err == None && rows == old(rows) - {id}
      ensures old(fault).Some? || id !in old(rows) ==> err == Some(SentinelError(AnswerNotFound)) && rows == old(rows)
    {
      if fault.Some? || id !in rows {
        return Some(SentinelError(AnswerNotFound));
      }
      rows := rows - {id};
      return None;
    }
  }
}
