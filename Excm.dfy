/**
 * `EXCM.GetException`: the exception text carried by an EXCM response. A
 * generated EXCM catches every exception of its body and returns
 * `"Exception:"` followed by the exception's `toString()`.
 */
module Excm {
  import opened Jvm

  const Marker: string := "Exception:"

  /** `GetException`: the text after the 10-character marker, or "" when the response does not start with it. */
  function GetException(response: string): (r: string)
    ensures Marker <= response ==> response == Marker + r
    ensures !(Marker <= response) ==> r == ""
  {
    if |response| >= 10 && response[..10] == Marker then
      assert response == response[..10] + response[10..];
      response[10..]
    else ""
  }

  /** What the generated `Execute` returns when its body throws `t`. */
  function CaughtResponse(t: Thrown): string
  {
    Marker + Show(t)
  }

  /** The marker followed by any text gives back that text. */
  lemma MarkedText(s: string)
    ensures GetException(Marker + s) == s
  {
    assert (Marker + s)[..10] == Marker;
    assert (Marker + s)[10..] == s;
  }

  /** The exception caught by a generated EXCM is recovered from its response. */
  lemma RecoversCaught(t: Thrown)
    ensures GetException(CaughtResponse(t)) == Show(t)
  {
    MarkedText(Show(t));
  }

  /** A non-empty result is exactly what follows the marker at the start of the response. */
  lemma ExceptionFound(response: string)
    ensures GetException(response) != [] ==> response == Marker + GetException(response)
    ensures |response| < 10 ==> GetException(response) == []
    ensures |response| >= 10 && response[..10] != Marker ==> GetException(response) == []
  {
    if GetException(response) != [] {
      assert response == response[..10] + response[10..];
    }
  }
}
