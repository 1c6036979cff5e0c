/**
 * Entities, requests and error values of the question/answer service.
 *
 * A Go `error` is modelled by the two things callers can observe about it:
 * its text (what `err.Error()` returns) and the set of sentinel errors that
 * `errors.Is` finds on its wrap chain.
 */
module Domain {

  datatype Option<T> = None | Some(value: T)

  datatype Result<T> = Success(value: T) | Failure(error: Error)

  /** The three sentinel errors of the domain package. */
  datatype Sentinel = QuestionNotFound | AnswerNotFound | InvalidInput

  function SentinelText(s: Sentinel): string
  {
    match s
    case QuestionNotFound => "question not found"
    case AnswerNotFound => "answer not found"
    case InvalidInput => "invalid input data"
  }

  /** An error value: its text and the sentinels on its wrap chain. */
  datatype Error = Error(text: string, chain: set<Sentinel>)

  /** `errors.Is(err, s)`. */
  predicate Is(err: Error, s: Sentinel)
  {
    s in err.chain
  }

  /** The sentinel itself, as returned by the repositories. */
  function SentinelError(s: Sentinel): Error
  {
    Error(SentinelText(s), {s})
  }

  /** `errors.New(text)`: an error that wraps nothing. */
  function NewError(text: string): Error
  {
    Error(text, {})
  }

  /** `fmt.Errorf("%w: <detail>", ErrInvalidInput)`. */
  function Invalid(detail: string): Error
  {
    Error(SentinelText(InvalidInput) + ": " + detail, {InvalidInput})
  }

  /** `fmt.Errorf("<context>: %w", cause)`: new text, same chain. */
  function Wrapf(context: string, cause: Error): Error
  {
    Error(context + ": " + cause.text, cause.chain)
  }

  /** A registered account. The hash is never serialized outward. */
  datatype User = User(id: string, email: string, passwordHash: string)

  /** A question row; its answers and creation time are not modelled. */
  datatype Question = Question(id: nat, text: string)

  /** An answer row; its creation time is not modelled. */
  datatype Answer = Answer(id: nat, questionId: nat, userId: string, text: string)

  datatype CreateQuestionRequest = CreateQuestionRequest(text: string)

  datatype CreateAnswerRequest = CreateAnswerRequest(userId: string, text: string)

  /** What a successful login hands back. */
  datatype AuthResponse = AuthResponse(accessToken: string, refreshToken: string, user: User)
}
