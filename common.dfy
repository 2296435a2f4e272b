/** Values shared by every page object and utility of the suite: an optional
    value for "nothing was clicked", and a result type for the Java exceptions
    that escape an operation. */
module Common {

  datatype Option<+T> = None | Some(value: T)

  /** The exceptions the modelled Java code lets escape, by kind. */
  datatype Failure =
    | NullPointer            // a null row, sheet or header dereferenced
    | IndexOutOfBounds       // an array or string index past the end
    | NoSuchElement          // driver.findElement found nothing
    | AssertionFailed(message: string)   // a TestNG Assert failed
    | IllegalState           // Gson's getAsJsonObject on a non-object
    | ClassCast              // Gson's getAsJsonObject(member) on a non-object member
    | JsonSyntax             // Gson could not parse the file
    | IllegalArgument        // Apache POI refused a row or column index
    | FormatFailure          // DataFormatter could not format a cell
    | DateParse              // a date string that does not parse

  datatype Result<+T> = Ok(value: T) | Err(error: Failure)

  /** The outcome of an operation that returns nothing: it completes, or an
      exception escapes it. */
  datatype Outcome = Pass | Fail(error: Failure)

  function Min(a: int, b: int): int { if a <= b then a else b }

  /** Key/value puts applied left to right, as a Java HashMap receives them:
      the last put of a key decides its value. */
  function PutAll<K(!new), V(!new)>(entries: seq<(K, V)>): (m: map<K, V>)
    ensures m.Keys == set e | e in entries :: e.0
    decreases |entries|
  {
    if entries == [] then map[]
    else
      var last := entries[|entries| - 1];
      var m0 := PutAll(entries[..|entries| - 1]);
      assert forall e :: e in entries <==> e in entries[..|entries| - 1] || e == last;
      m0[last.0 := last.1]
  }

  /** The value the map holds for a key is the value of the LAST entry with that
      key: every later entry has a different key. */
  lemma {:induction false} PutAllLastWins<K(!new), V(!new)>(entries: seq<(K, V)>, i: nat)
    requires i < |entries|
    requires forall j :: i < j < |entries| ==> entries[j].0 != entries[i].0
    ensures entries[i].0 in PutAll(entries)
    ensures PutAll(entries)[entries[i].0] == entries[i].1
    decreases |entries|
  {
    var n := |entries|;
    var prefix := entries[..n - 1];
    assert entries[i] in entries;
    if i < n - 1 {
      assert prefix[i] == entries[i];
      forall j | i < j < |prefix| ensures prefix[j].0 != prefix[i].0 {
        assert prefix[j] == entries[j];
      }
      PutAllLastWins(prefix, i);
    }
  }
}
