/**
 * The question manager: validates a new question's text, stores it
 * trimmed, and passes look-ups, listing and deletion straight through to
 * the questions table.
 *
 * Lengths are Go string lengths, that is UTF-8 bytes, although the
 * messages speak of characters.
 */
module Questions {
  import opened Domain
  import opened Text
  import opened Repository

  const MinQuestionBytes: nat := 10
  const MaxQuestionBytes: nat := 1000

  /** `validateCreateRequest`: the trimmed text must be present, then long enough, then short enough. */
  function ValidateQuestion(req: CreateQuestionRequest): (err: Option<Error>)
    ensures err.None? <==> MinQuestionBytes <= ByteLen(TrimSpace(req.text)) <= MaxQuestionBytes
    ensures err.Some? ==> err.value.chain == {InvalidInput}
  {
    var text := TrimSpace(req.text);
    if text == [] then Some(Invalid("question text is required"))
    else if ByteLen(text) < MinQuestionBytes then Some(Invalid("question text must be at least 10 characters"))
    else if ByteLen(text) > MaxQuestionBytes then Some(Invalid("question text must not exceed 1000 characters"))
    else None
  }

  /** Which message a refused text gets: absent exactly when it is all white space, and so on down the checks. */
  lemma QuestionRejectionReasons(req: CreateQuestionRequest)
    ensures AllSpace(req.text) ==> ValidateQuestion(req) == Some(Invalid("question text is required"))
    ensures !AllSpace(req.text) && ByteLen(TrimSpace(req.text)) < MinQuestionBytes ==>
      ValidateQuestion(req) == Some(Invalid("question text must be at least 10 characters"))
    ensures ByteLen(TrimSpace(req.text)) > MaxQuestionBytes ==>
      ValidateQuestion(req) == Some(Invalid("question text must not exceed 1000 characters"))
  {
    TrimSpaceEmpty(req.text);
  }

  /** Validation looks only at the trimmed text, so the text that is stored passes it again. */
  lemma StoredTextRevalidates(req: CreateQuestionRequest)
    ensures ValidateQuestion(CreateQuestionRequest(TrimSpace(req.text))) == ValidateQuestion(req)
  {
    TrimSpaceIdempotent(req.text);
    SameTrimSameVerdict(CreateQuestionRequest(TrimSpace(req.text)), req);
  }

  lemma SameTrimSameVerdict(a: CreateQuestionRequest, b: CreateQuestionRequest)
    requires TrimSpace(a.text) == TrimSpace(b.text)
    ensures ValidateQuestion(a) == ValidateQuestion(b)
  {
  }

  /**
   * The bounds are in bytes: five three-byte characters pass the
   * ten-character minimum, and four hundred of them exceed the
   * thousand-character maximum.
   */
  lemma BoundsCountBytes()
    ensures ValidateQuestion(CreateQuestionRequest(seq(5, _ => '日'))).None?
    ensures ValidateQuestion(CreateQuestionRequest(seq(400, _ => '日'))) ==
      Some(Invalid("question text must not exceed 1000 characters"))
  {
    var short := seq(5, _ => '日');
    var long := seq(400, _ => '日');
    TrimSpaceNoEdges(short);
    TrimSpaceNoEdges(long);
    ByteLenOfRepeat('日', 5);
    ByteLenOfRepeat('日', 400);
  }

  /** A run of `n` copies of `c` takes `n` times its byte length. */
  lemma {:induction false} ByteLenOfRepeat(c: char, n: nat)
    ensures ByteLen(seq(n, _ => c)) == n * RuneLen(c)
  {
    if n > 0 {
      assert seq(n, _ => c)[1..] == seq(n - 1, _ => c);
      ByteLenOfRepeat(c, n - 1);
    }
  }

  /** A text of 1001 NUL bytes is not white space and is refused as too long. */
  lemma ThousandAndOneNulRefused()
    ensures ValidateQuestion(CreateQuestionRequest(seq(1001, _ => '\0'))) ==
      Some(Invalid("question text must not exceed 1000 characters"))
  {
    var text := seq(1001, _ => '\0');
    TrimSpaceNoEdges(text);
    ByteLenOfRepeat('\0', 1001);
  }

  class QuestionService {
    const repo: QuestionRepository

    constructor (repo: QuestionRepository)
      ensures this.repo == repo
    {
      this.repo := repo;
    }

    /** `Create`: validate, then store the trimmed text under a new id. */
    method Create(req: CreateQuestionRequest) returns (r: Result<Question>)
      requires repo.Valid()
      modifies repo
      ensures repo.Valid() && repo.fault == old(repo.fault)
      ensures r.Success? <==> ValidateQuestion(req).None? && repo.fault.None?
      ensures ValidateQuestion(req).Some? ==> r == Failure(ValidateQuestion(req).value)
      ensures ValidateQuestion(req).None? && repo.fault.Some? ==>
        r == Failure(Wrapf("failed to create question", repo.fault.value))
      ensures r.Failure? ==> repo.rows == old(repo.rows)
      ensures r.Success? ==>
        && r.value.text == TrimSpace(req.text) && r.value.id !in old(repo.rows)
        && repo.rows == old(repo.rows)[r.value.id := r.value]
    {
      var invalid := ValidateQuestion(req);
      if invalid.Some? {
        return Failure(invalid.value);
      }
      var stored, err := repo.Create(Question(0, TrimSpace(req.text)));
      if err.Some? {
        return Failure(Wrapf("failed to create question", err.value));
      }
      return Success(stored);
    }

    /** `GetByID`: the row, or the question-not-found sentinel itself. */
    method GetByID(id: nat) returns (r: Result<Question>)
      requires repo.Valid()
      ensures repo.fault.Some? ==> r == Failure(repo.fault.value)
      ensures repo.fault.None? && id in repo.rows ==> r == Success(repo.rows[id])
      ensures repo.fault.None? && id !in repo.rows ==> r == Failure(SentinelError(QuestionNotFound))
    {
      r := repo.GetByID(id);
    }

    /** `GetAll`: every stored question exactly once. */
    method GetAll() returns (r: Result<seq<Question>>)
      requires repo.Valid()
      ensures repo.fault.Some? ==> r == Failure(repo.fault.value)
      ensures repo.fault.None? ==> r.Success? && |r.value| == |repo.rows|
      ensures repo.fault.None? ==> forall q :: q in r.value <==> q in repo.rows.Values
    {
      r := repo.GetAll();
    }

    /** `Delete`: removes the row; a delete that removes nothing reports the question as missing. */
    method Delete(id: nat) returns (err: Option<Error>)
      requires repo.Valid()
      modifies repo
      ensures repo.Valid() && repo.fault == old(repo.fault)
      ensures err.None? <==> repo.fault.None? && id in old(repo.rows)
      ensures err.None? ==> repo.rows == old(repo.rows) - {id}
      ensures err.Some? ==> err == Some(SentinelError(QuestionNotFound)) && repo.rows == old(repo.rows)
    {
      err := repo.Delete(id);
    }
  }
}
