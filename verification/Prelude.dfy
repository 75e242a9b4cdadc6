/** Small shared vocabulary: optional and failing results, and the code-unit
    order on strings that both the database keys and the cluster sorts use. */
module Prelude {

  datatype Option<+T> = None | Some(value: T)

  datatype Result<+T, +E> = Ok(value: T) | Err(error: E)

  /** Why a request is refused: the application's error codes, and the database
      constraints that abort a transaction. */
  datatype Error = NotFound | Conflict | TooTight | ValidationFailed | AlreadyExists | HierarchyCycle
                 | StillMapped | NoSnapshot | NothingToRevertTo | SecondPublisherRequired
                 | UniqueViolation | NotNullViolation

  /** Strict lexicographic order by code unit (JavaScript's `<` on strings). */
  predicate LexLess(a: string, b: string)
  {
    if b == [] then false
    else if a == [] then true
    else if a[0] != b[0] then a[0] < b[0]
    else LexLess(a[1..], b[1..])
  }

  /** The strings agree up to i, and there a has ended or has the smaller unit. */
  predicate DecidedAt(a: string, b: string, i: int)
  {
    0 <= i <= |a| && i < |b| && a[..i] == b[..i] && (i == |a| || a[i] < b[i])
  }

  lemma {:induction false} DecidedIsLess(a: string, b: string, i: nat)
    requires DecidedAt(a, b, i)
    ensures LexLess(a, b)
  {
    if i > 0 {
      assert a[0] == a[..i][0] && b[0] == b[..i][0];
      assert a[1..][..i - 1] == a[..i][1..] && b[1..][..i - 1] == b[..i][1..];
      DecidedIsLess(a[1..], b[1..], i - 1);
    }
  }

  lemma {:induction false} LessIsDecided(a: string, b: string) returns (i: nat)
    requires LexLess(a, b)
    ensures DecidedAt(a, b, i)
  {
    if a == [] || a[0] != b[0] {
      i := 0;
    } else {
      var rest := LessIsDecided(a[1..], b[1..]);
      i := rest + 1;
      assert a[..i] == [a[0]] + a[1..][..rest] && b[..i] == [b[0]] + b[1..][..rest];
    }
  }

  /** Strings are ordered by the first place where they differ; a proper beginning of a
      string comes before it. */
  lemma LexMeans(a: string, b: string)
    ensures LexLess(a, b) <==>
            exists i :: 0 <= i <= |a| && i < |b| && a[..i] == b[..i] && (i == |a| || a[i] < b[i])
  {
    if LexLess(a, b) {
      var i := LessIsDecided(a, b);
    }
    if i :| 0 <= i <= |a| && i < |b| && a[..i] == b[..i] && (i == |a| || a[i] < b[i]) {
      DecidedIsLess(a, b, i);
    }
  }

  lemma {:induction false} LexIrreflexive(a: string)
    ensures !LexLess(a, a)
  {
    if a != [] {
      LexIrreflexive(a[1..]);
    }
  }

  lemma {:induction false} LexTransitive(a: string, b: string, c: string)
    requires LexLess(a, b) && LexLess(b, c)
    ensures LexLess(a, c)
  {
    if a != [] && a[0] == b[0] && b[0] == c[0] {
      LexTransitive(a[1..], b[1..], c[1..]);
    }
  }

  lemma {:induction false} LexTotal(a: string, b: string)
    ensures a == b || LexLess(a, b) || LexLess(b, a)
  {
    if a != [] && b != [] && a[0] == b[0] {
      LexTotal(a[1..], b[1..]);
      if a[1..] == b[1..] {
        assert a == [a[0]] + a[1..];
        assert b == [b[0]] + b[1..];
      }
    }
  }

  lemma LexAsymmetric(a: string, b: string)
    requires LexLess(a, b)
    ensures !LexLess(b, a)
  {
    if LexLess(b, a) {
      LexTransitive(a, b, a);
      LexIrreflexive(a);
    }
  }

  /** A subset is no larger. */
  lemma {:induction false} SubsetSize<T>(a: set<T>, b: set<T>)
    requires a <= b
    ensures |a| <= |b|
  {
    if a != {} {
      var x :| x in a;
      SubsetSize(a - {x}, b - {x});
    }
  }
}
