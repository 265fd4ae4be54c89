/** What both name-collection variants share: the per-worker store key and the failures. */
module Registry {
  import opened Decimal

  /** A worker publishes its name under the decimal text of its id (`c10::to_string(id)`). */
  function IdKey(id: int): string {
    IntToString(id)
  }

  /** The store key of the roster in the dynamic variant. */
  const RosterKey: string := "AllWorkerInfos"

  datatype Error =
    | DuplicateName(name: string, firstId: int, secondId: int)
    | IdAlreadyClaimed(id: int, holder: string)
    | MalformedEntry(entry: string)

  /** Distinct ids publish under distinct keys, and never under the roster key. */
  lemma IdKeysDistinct(a: int, b: int)
    ensures IdKey(a) == IdKey(b) <==> a == b
    ensures IdKey(a) != RosterKey
  {
    IntToStringInjective(a, b);
    if a >= 0 {
      assert IsDigit(IdKey(a)[0]);
    }
  }
}
