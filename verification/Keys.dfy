/** Composite keys: two strings with a NUL between them, as the limiter and the
    fingerprint base build them. */
module Keys {

  predicate NoNul(head: string) {
    '\0' !in head
  }

  function Joined(head: string, tail: string): string {
    head + "\0" + tail
  }

  lemma FirstNul(head: string, tail: string)
    requires NoNul(head)
    ensures Joined(head, tail)[|head|] == '\0' && forall i | 0 <= i < |head| :: Joined(head, tail)[i] != '\0'
  {
  }

  /** With no NUL in their heads, two keys are equal only part by part. */
  lemma Apart(a: string, u: string, b: string, v: string)
    requires NoNul(a) && NoNul(b) && Joined(a, u) == Joined(b, v)
    ensures a == b && u == v
  {
    var x, y := Joined(a, u), Joined(b, v);
    FirstNul(a, u);
    FirstNul(b, v);
    assert a == x[..|a|] && b == y[..|b|];
    assert u == x[|a| + 1..] && v == y[|b| + 1..];
  }
}
