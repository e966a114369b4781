/**
 * The image-tag existence check of build/python/src/check_image.py.
 *
 * A CheckImage object picks the ECR client for a repository type; its
 * check asks the registry for one tag and ends the process with GOOD_EXIT
 * when the registry answers that the tag is not found, with BAD_EXIT when
 * the tag exists or the registry answers with another error, and, as
 * written, with status 0 when the lookup raises any other exception. The
 * registry's reply is a parameter (LookupOutcome); the process exit that
 * handle_exit performs is recorded in the object's exitCalls field.
 */
module ImageCheck {
  import opened Wrappers

  const GOOD_EXIT: int := 0
  const BAD_EXIT: int := 1

  /** The error code of the registry's "no such tag" reply. */
  const ImageNotFound: string := "ImageNotFoundException"

  /** The boto3 client the constructor creates: ECR Public in us-east-1, or private ECR. */
  datatype EcrClient = EcrPublic(region: string) | EcrPrivate

  /**
   * How describe_images ended: it returned (the tag exists), it raised a
   * ClientError whose response carries Error.Code (None when the response has
   * no such entry), or it raised some other exception.
   */
  datatype LookupOutcome =
    | Returned
    | ClientError(code: Option<string>)
    | OtherException

  /** The repo_type branch of the constructor: a client, or sys.exit(BAD_EXIT). */
  function ClientFor(repoType: string): (r: Result<EcrClient, int>)
    ensures r.Success? <==> repoType == "public" || repoType == "private"
    ensures r.Success? ==> (r.value.EcrPublic? <==> repoType == "public")
    ensures r.Success? && r.value.EcrPublic? ==> r.value.region == "us-east-1"
    ensures r.Failure? ==> r.error == BAD_EXIT
  {
    if repoType == "public" then Success(EcrPublic("us-east-1"))
    else if repoType == "private" then Success(EcrPrivate)
    else Failure(BAD_EXIT)
  }

  /**
   * The process status of sys.exit(code): None exits with status 0, an
   * integer with that integer.
   */
  function ProcessStatus(code: Option<int>): (status: int)
    ensures code.Some? ==> status == code.value
    ensures code.None? ==> status == GOOD_EXIT
  {
    match code
    case None => 0
    case Some(n) => n
  }

  /**
   * The exit_code check_tag_does_not_exist hands to handle_exit, as the
   * code is written: an exception other than ClientError leaves it None.
   */
  function ExitCodeAsWritten(outcome: LookupOutcome): (code: Option<int>)
    ensures code == Some(GOOD_EXIT) <==> outcome == ClientError(Some(ImageNotFound))
    ensures code.None? <==> outcome.OtherException?
    ensures code.Some? ==> code.value == GOOD_EXIT || code.value == BAD_EXIT
  {
    match outcome
    case Returned => Some(BAD_EXIT)
    case ClientError(c) => if c == Some(ImageNotFound) then Some(GOOD_EXIT) else Some(BAD_EXIT)
    case OtherException => None
  }

  /**
   * The exit code the check is documented to produce: GOOD_EXIT exactly when
   * the registry answers that the tag is not found, BAD_EXIT in every other case.
   */
  function ExitCode(outcome: LookupOutcome): (code: int)
    ensures code == GOOD_EXIT <==> outcome == ClientError(Some(ImageNotFound))
    ensures code == GOOD_EXIT || code == BAD_EXIT
  {
    match outcome
    case Returned => BAD_EXIT
    case ClientError(c) => if c == Some(ImageNotFound) then GOOD_EXIT else BAD_EXIT
    case OtherException => BAD_EXIT
  }

  /** The two codes differ only for an unexpected exception, and there the status differs too. */
  lemma ExitCodeCorrectsAsWritten(outcome: LookupOutcome)
    ensures ExitCodeAsWritten(outcome) == Some(ExitCode(outcome)) <==> !outcome.OtherException?
    ensures ProcessStatus(Some(ExitCode(outcome))) == GOOD_EXIT ==>
            ProcessStatus(ExitCodeAsWritten(outcome)) == GOOD_EXIT
    ensures outcome.OtherException? ==>
            ProcessStatus(ExitCodeAsWritten(outcome)) != ProcessStatus(Some(ExitCode(outcome)))
  {
  }

  class CheckImage {
    const repoType: string
    const repoName: string
    const tag: string
    const ecrClient: EcrClient
    /** The arguments handle_exit was called with, oldest first (None is Python's None). */
    var exitCalls: seq<Option<int>>

    constructor (repoType: string, repoName: string, tag: string, ecrClient: EcrClient)
      requires ClientFor(repoType) == Success(ecrClient)
      ensures this.repoType == repoType && this.repoName == repoName && this.tag == tag
      ensures this.ecrClient == ecrClient
      ensures exitCalls == []
    {
      this.repoType := repoType;
      this.repoName := repoName;
      this.tag := tag;
      this.ecrClient := ecrClient;
      exitCalls := [];
    }

    /** handle_exit: sys.exit(exit_code), recorded. */
    method HandleExit(exitCode: Option<int>)
      modifies this
      ensures exitCalls == old(exitCalls) + [exitCode]
    {
      exitCalls := exitCalls + [exitCode];
    }

    /**
     * check_tag_does_not_exist, for the registry's reply `outcome` to the
     * lookup of (repoName, tag): exit_code starts as None, only the return and
     * ClientError paths assign it, and the finally block calls handle_exit once.
     */
    method CheckTagDoesNotExist(outcome: LookupOutcome)
      modifies this
      ensures exitCalls == old(exitCalls) + [ExitCodeAsWritten(outcome)]
    {
      var exitCode: Option<int> := None;
      match outcome {
        case Returned =>
          exitCode := Some(BAD_EXIT);
        case ClientError(code) =>
          if code == Some(ImageNotFound) {
            exitCode := Some(GOOD_EXIT);
          } else {
            exitCode := Some(BAD_EXIT);
          }
        case OtherException =>
      }
      HandleExit(exitCode);
    }
  }

  /** checkImage(repo_type, repo_name, tag): an object, or the BAD_EXIT of an unknown repo type. */
  method NewCheckImage(repoType: string, repoName: string, tag: string) returns (r: Result<CheckImage, int>)
    ensures r.Failure? <==> ClientFor(repoType).Failure?
    ensures r.Failure? ==> r.error == BAD_EXIT
    ensures r.Success? ==>
      && fresh(r.value)
      && r.value.repoType == repoType && r.value.repoName == repoName && r.value.tag == tag
      && ClientFor(repoType).Success? && r.value.ecrClient == ClientFor(repoType).value
      && r.value.exitCalls == []
  {
    match ClientFor(repoType)
    case Failure(code) =>
      r := Failure(code);
    case Success(client) =>
      var c := new CheckImage(repoType, repoName, tag, client);
      r := Success(c);
  }

  /**
   * The process status of `python check_image.py argv[1..]` when the lookup
   * ends as `outcome`, as the script is written.
   */
  function ScriptStatus(argv: seq<string>, outcome: LookupOutcome): (status: int)
    ensures status == GOOD_EXIT || status == BAD_EXIT
    ensures |argv| < 4 ==> status == BAD_EXIT
    ensures |argv| >= 4 && ClientFor(argv[1]).Failure? ==> status == BAD_EXIT
  {
    if |argv| < 4 then 1
    else match ClientFor(argv[1])
      case Failure(code) => code
      case Success(_) => ProcessStatus(ExitCodeAsWritten(outcome))
  }

  /**
   * As written, the script exits with GOOD_EXIT exactly when it has its three
   * arguments, a known repository type, and the lookup either answers that
   * the tag is not found or raises an exception that is not a ClientError.
   */
  lemma ScriptStatusSpec(argv: seq<string>, outcome: LookupOutcome)
    ensures ScriptStatus(argv, outcome) == GOOD_EXIT <==>
      |argv| >= 4 && (argv[1] == "public" || argv[1] == "private") &&
      (outcome == ClientError(Some(ImageNotFound)) || outcome.OtherException?)
  {
  }

  /** The status the script is documented to end with: the exit code of ExitCode once it runs. */
  function IntendedScriptStatus(argv: seq<string>, outcome: LookupOutcome): (status: int)
    ensures status == GOOD_EXIT <==>
      |argv| >= 4 && (argv[1] == "public" || argv[1] == "private") &&
      outcome == ClientError(Some(ImageNotFound))
    ensures status == GOOD_EXIT || status == BAD_EXIT
  {
    if |argv| < 4 then 1
    else match ClientFor(argv[1])
      case Failure(code) => code
      case Success(_) => ExitCode(outcome)
  }

  /**
   * As written, an unexpected exception from the lookup makes the script
   * report "tag does not exist": exit_code stays None, and sys.exit(None)
   * ends the process with status 0, which is GOOD_EXIT; the documented
   * status is BAD_EXIT.
   */
  lemma UnexpectedExceptionExitsGood(argv: seq<string>)
    requires |argv| >= 4 && argv[1] == "public"
    ensures ExitCodeAsWritten(OtherException).None?
    ensures ProcessStatus(ExitCodeAsWritten(OtherException)) == GOOD_EXIT
    ensures ScriptStatus(argv, OtherException) == GOOD_EXIT
    ensures IntendedScriptStatus(argv, OtherException) == BAD_EXIT
  {
  }

  /** The script as written and as documented part exactly on a lookup that raises something else. */
  lemma ScriptStatusDiffers(argv: seq<string>, outcome: LookupOutcome)
    ensures ScriptStatus(argv, outcome) != IntendedScriptStatus(argv, outcome) <==>
      |argv| >= 4 && (argv[1] == "public" || argv[1] == "private") && outcome.OtherException?
  {
    ExitCodeCorrectsAsWritten(outcome);
  }

  /** The script's main block: argument check, construction, then the check. */
  method RunScript(argv: seq<string>, outcome: LookupOutcome) returns (status: int)
    ensures status == ScriptStatus(argv, outcome)
  {
    if |argv| < 4 {
      return 1;
    }
    var repoType := argv[1];
    var repoName := argv[2];
    var tag := argv[3];
    var check := NewCheckImage(repoType, repoName, tag);
    if check.Failure? {
      return check.error;
    }
    check.value.CheckTagDoesNotExist(outcome);
    status := ProcessStatus(check.value.exitCalls[0]);
  }
}
