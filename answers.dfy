/**
 * The answer manager: an answer is accepted only for an existing
 * question, from a well-formed user id, with a text of bounded length;
 * both fields are stored trimmed.
 *
 * UUID syntax (`uuid.Parse`) belongs to a library and is a parameter
 * `isUuid` of the service.
 */
module Answers {
  import opened Domain
  import opened Text
  import opened Repository

  const MinAnswerBytes: nat := 5
  const MaxAnswerBytes: nat := 1000

  /**
   * `validateCreateRequest`: the trimmed user id must be present and parse
   * as a UUID, then the trimmed text must be present, long enough and
   * short enough.
   */
  function ValidateAnswer(req: CreateAnswerRequest, isUuid: string -> bool): (err: Option<Error>)
    ensures err.None? <==>
      && TrimSpace(req.userId) != [] && isUuid(TrimSpace(req.userId))
      && MinAnswerBytes <= ByteLen(TrimSpace(req.text)) <= MaxAnswerBytes
    ensures err.Some? ==> err.value.chain == {InvalidInput}
  {
    var userId := TrimSpace(req.userId);
    var text := TrimSpace(req.text);
    if userId == [] then Some(Invalid("user_id is required"))
    else if !isUuid(userId) then Some(Invalid("user_id must be a valid UUID"))
    else if text == [] then Some(Invalid("answer text is required"))
    else if ByteLen(text) < MinAnswerBytes then Some(Invalid("answer text must be at least 5 characters"))
    else if ByteLen(text) > MaxAnswerBytes then Some(Invalid("answer text must not exceed 1000 characters"))
    else None
  }

  /** The user id is checked before the text: a bad user id is reported whatever the text is. */
  lemma UserIdCheckedFirst(req: CreateAnswerRequest, isUuid: string -> bool)
    ensures AllSpace(req.userId) ==> ValidateAnswer(req, isUuid) == Some(Invalid("user_id is required"))
    ensures !AllSpace(req.userId) && !isUuid(TrimSpace(req.userId)) ==>
      ValidateAnswer(req, isUuid) == Some(Invalid("user_id must be a valid UUID"))
    ensures !AllSpace(req.userId) && isUuid(TrimSpace(req.userId)) && AllSpace(req.text) ==>
      ValidateAnswer(req, isUuid) == Some(Invalid("answer text is required"))
    ensures
      && TrimSpace(req.userId) != [] && isUuid(TrimSpace(req.userId))
      && TrimSpace(req.text) != [] && ByteLen(TrimSpace(req.text)) < MinAnswerBytes
      ==> ValidateAnswer(req, isUuid) == Some(Invalid("answer text must be at least 5 characters"))
    ensures
      && TrimSpace(req.userId) != [] && isUuid(TrimSpace(req.userId))
      && ByteLen(TrimSpace(req.text)) > MaxAnswerBytes
      ==> ValidateAnswer(req, isUuid) == Some(Invalid("answer text must not exceed 1000 characters"))
  {
    TrimSpaceEmpty(req.userId);
    TrimSpaceEmpty(req.text);
  }

  /** The stored fields pass validation again. */
  lemma StoredAnswerRevalidates(req: CreateAnswerRequest, isUuid: string -> bool)
    ensures ValidateAnswer(CreateAnswerRequest(TrimSpace(req.userId), TrimSpace(req.text)), isUuid) ==
            ValidateAnswer(req, isUuid)
  {
    TrimSpaceIdempotent(req.userId);
    TrimSpaceIdempotent(req.text);
    SameTrimSameVerdict(CreateAnswerRequest(TrimSpace(req.userId), TrimSpace(req.text)), req, isUuid);
  }

  lemma SameTrimSameVerdict(a: CreateAnswerRequest, b: CreateAnswerRequest, isUuid: string -> bool)
    requires TrimSpace(a.userId) == TrimSpace(b.userId) && TrimSpace(a.text) == TrimSpace(b.text)
    ensures ValidateAnswer(a, isUuid) == ValidateAnswer(b, isUuid)
  {
  }

  class AnswerService {
    const answerRepo: AnswerRepository
    const questionRepo: QuestionRepository
    const isUuid: string -> bool

    constructor (answerRepo: AnswerRepository, questionRepo: QuestionRepository, isUuid: string -> bool)
      ensures this.answerRepo == answerRepo && this.questionRepo == questionRepo && this.isUuid == isUuid
    {
      this.answerRepo := answerRepo;
      this.questionRepo := questionRepo;
      this.isUuid := isUuid;
    }

    /**
     * `Create`: the question must exist (its look-up error is returned
     * as it is), then the request must validate; the answer is stored
     * with the trimmed user id and text.
     */
    method Create(questionId: nat, req: CreateAnswerRequest) returns (r: Result<Answer>)
      requires answerRepo.Valid() && questionRepo.Valid()
      modifies answerRepo
      ensures answerRepo.Valid() && answerRepo.fault == old(answerRepo.fault)
      ensures questionRepo.fault.Some? ==> r == Failure(questionRepo.fault.value)
      ensures questionRepo.fault.None? && questionId !in questionRepo.rows ==>
        r == Failure(SentinelError(QuestionNotFound))
      ensures questionRepo.fault.None? && questionId in questionRepo.rows && ValidateAnswer(req, isUuid).Some? ==>
        r == Failure(ValidateAnswer(req, isUuid).value)
      ensures r.Success? <==>
        && questionRepo.fault.None? && questionId in questionRepo.rows
        && ValidateAnswer(req, isUuid).None? && answerRepo.fault.None?
      ensures r.Failure? && !Is(r.error, QuestionNotFound) && !Is(r.error, InvalidInput) ==>
        r.error == (if questionRepo.fault.Some? then questionRepo.fault.value
                    else Wrapf("failed to create answer", answerRepo.fault.value))
      ensures r.Failure? ==> answerRepo.rows == old(answerRepo.rows)
      ensures r.Success? ==>
        && r.value.questionId == questionId
        && r.value.userId == TrimSpace(req.userId) && r.value.text == TrimSpace(req.text)
        && r.value.id !in old(answerRepo.rows)
        && answerRepo.rows == old(answerRepo.rows)[r.value.id := r.value]
    {
      var question := questionRepo.GetByID(questionId);
      if question.Failure? {
        return Failure(question.error);
      }
      var invalid := ValidateAnswer(req, isUuid);
      if invalid.Some? {
        return Failure(invalid.value);
      }
      var stored, err := answerRepo.Create(Answer(0, questionId, TrimSpace(req.userId), TrimSpace(req.text)));
      if err.Some? {
        return Failure(Wrapf("failed to create answer", err.value));
      }
      return Success(stored);
    }

    /** `GetByID`: the row, or the answer-not-found sentinel. */
    method GetByID(id: nat) returns (r: Result<Answer>)
      requires answerRepo.Valid()
      ensures answerRepo.fault.Some? ==> r == Failure(answerRepo.fault.value)
      ensures answerRepo.fault.None? && id in answerRepo.rows ==> r == Success(answerRepo.rows[id])
      ensures answerRepo.fault.None? && id !in answerRepo.rows ==> r == Failure(SentinelError(AnswerNotFound))
    {
      r := answerRepo.GetByID(id);
    }

    /** `Delete`: removes the row; a delete that removes nothing reports the answer as missing. */
    method Delete(id: nat) returns (err: Option<Error>)
      requires answerRepo.Valid()
      modifies answerRepo
      ensures answerRepo.Valid() && answerRepo.fault == old(answerRepo.fault)
      ensures err.None? <==> answerRepo.fault.None? && id in old(answerRepo.rows)
      ensures err.None? ==> answerRepo.rows == old(answerRepo.rows) - {id}
      ensures err.Some? ==> err == Some(SentinelError(AnswerNotFound)) && answerRepo.rows == old(answerRepo.rows)
    {
      err := answerRepo.Delete(id);
    }
  }
}
