/**
 * The error callback of the position request in script.js: a Geolocation API
 * error code is turned into the Polish message shown to the user. Codes 1, 2
 * and 3 are PERMISSION_DENIED, POSITION_UNAVAILABLE and TIMEOUT of the W3C
 * Geolocation API; any other code gets the generic message.
 */
module Geolocation {
  const PermissionDenied: int := 1
  const PositionUnavailable: int := 2
  const Timeout: int := 3

  /** The `errorMessages` table. */
  const Messages: map<int, string> := map[
    PermissionDenied := "Brak dostępu do lokalizacji. Włącz GPS lub udziel zgody.",
    PositionUnavailable := "Lokalizacja niedostępna.",
    Timeout := "Przekroczono czas oczekiwania na lokalizację."
  ]

  /** The message used when the table has no (truthy) entry for the code. */
  const Fallback: string := "Nie udało się uzyskać lokalizacji."

  /**
   * `errorMessages[code] || fallback`: a missing entry is `undefined` and an
   * empty string is falsy, so both give the fallback.
   */
  function ErrorMessage(code: int): (m: string)
    ensures m != []
    ensures code == PermissionDenied ==> m == "Brak dostępu do lokalizacji. Włącz GPS lub udziel zgody."
    ensures code == PositionUnavailable ==> m == "Lokalizacja niedostępna."
    ensures code == Timeout ==> m == "Przekroczono czas oczekiwania na lokalizację."
    ensures m == Fallback <==> code !in {PermissionDenied, PositionUnavailable, Timeout}
  {
    if code in Messages && Messages[code] != [] then Messages[code] else Fallback
  }

  /** Different codes give different messages, except that all unknown codes share the fallback. */
  lemma MessagesTellCodesApart(c1: int, c2: int)
    requires ErrorMessage(c1) == ErrorMessage(c2)
    ensures c1 == c2 || (c1 !in Messages && c2 !in Messages)
  {
  }
}
