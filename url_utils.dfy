/** The argument a caller hands to `extract_response_code`, and Python's `str()` of it. */
module PyObjects {
  import ResponseRegex

  datatype PyObject =
    | Text(s: string)
    | NoneObject
    | IntObject(i: int)
    | BoolObject(b: bool)
    | Other(repr: string)   // any other object, e.g. a response or an exception, whose `str()` is `repr`

  /** `str(o)`. */
  function Str(o: PyObject): string {
    match o
    case Text(s) => s
    case NoneObject => "None"
    case IntObject(i) => if i < 0 then "-" + ResponseRegex.DecimalString(-i) else ResponseRegex.DecimalString(i)
    case BoolObject(b) => if b then "True" else "False"
    case Other(r) => r
  }
}

/** `urls_checker/utils.py`: the argument is turned into a string first, so anything is accepted. */
module CheckerUtils {
  import opened Wrappers
  import opened PyObjects
  import opened ResponseRegex

  function ExtractResponseCode(response: PyObject): Option<nat> {
    ExtractCode(Str(response))
  }

  /**
   * `None`, a number and a bool never yield a code, since their `str()`
   * holds no '['; a string or another object yields the code of its text.
   */
  lemma {:induction false} ExtractResponseCodeCases(response: PyObject)
    ensures response.NoneObject? || response.IntObject? || response.BoolObject? ==> ExtractResponseCode(response) == None
    ensures response.Text? ==> ExtractResponseCode(response) == ExtractCode(response.s)
    ensures response.Other? ==> ExtractResponseCode(response) == ExtractCode(response.repr)
  {
    var s := Str(response);
    if response.IntObject? {
      var ds := DecimalString(if response.i < 0 then -response.i else response.i);
      assert '[' !in ds;
      assert '[' !in s;
      NoBracketNoCode(s);
    } else if response.NoneObject? || response.BoolObject? {
      assert '[' !in s;
      NoBracketNoCode(s);
    }
  }
}

/** `urls_response_codes/utils.py`: `re.search` is handed the argument as it is. */
module ResponseCodesUtils {
  import opened Wrappers
  import opened PyObjects
  import opened ResponseRegex
  import CheckerUtils

  /** `re.search` raises TypeError for an argument that is not a string. */
  datatype SearchError = TypeError

  function ExtractResponseCode(responseStr: PyObject): Result<Option<nat>, SearchError> {
    if responseStr.Text? then Success(ExtractCode(responseStr.s)) else Failure(TypeError)
  }

  /**
   * The two versions agree on every string; only the checker's accepts
   * anything else.
   */
  lemma AgreesWithChecker(response: PyObject)
    ensures ExtractResponseCode(response).Success? <==> response.Text?
    ensures response.Text? ==> ExtractResponseCode(response).value == CheckerUtils.ExtractResponseCode(response)
  {
    CheckerUtils.ExtractResponseCodeCases(response);
  }
}
