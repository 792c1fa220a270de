/** What several modules share. */
module Common {
  datatype Option<T> = None | Some(value: T)

  /**
   * A fact wrapped in `forall z: int {:trigger Seal(key, z)} :: Seal(key, z) ==> fact` stays folded
   * until a proof mentions Seal(key, _), so that it costs nothing where it is only passed on.
   */
  predicate Seal<K>(key: K, z: int) { true }
}
