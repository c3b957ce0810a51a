/** Gates that keep a definition closed: a predicate may say what it says only for every index `u` with Looked(u),
    Opened(u) or Entered(u). These always hold, but the verifier looks behind such a gate only where a proof names an
    index. */
module Gates {
  ghost predicate Looked(u: int) {
    true
  }

  ghost predicate Opened(u: int) {
    true
  }

  ghost predicate Entered(u: int) {
    true
  }
}
