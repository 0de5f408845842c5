module Wrappers {
  datatype Option<+T> = None | Some(value: T)

  // The result of a kernel routine that may call kernel_panic, after which
  // nothing runs any more.
  datatype Outcome<+T> = Returned(value: T) | Panic

  lemma OverwriteTwice<K, V>(m: map<K, V>, k: K, a: V, b: V)
    ensures m[k := a][k := b] == m[k := b]
  {
  }
}
