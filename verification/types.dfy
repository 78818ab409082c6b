/** Identifiers and opaque payloads shared by every part of the boot orchestrator. */
module Types {

  /** A boot-step type. In the library a type is an object compared by reference,
      so it is modelled by the identity of that object and nothing else. */
  datatype StepType = StepType(ref: nat)

  /** A value produced by a step (any Java object); only its identity matters. */
  datatype Value = Value(ref: nat)

  /** A Java throwable carried by a failure; only its identity matters. */
  datatype Throwable = Throwable(ref: nat)

  /** What graph validation found wrong, carried by the task's dependency
      exception in place of its formatted message. */
  datatype DependencyDefect =
    | MissingDependency(missing: StepType, dependent: StepType)
    | CircularDependency(chain: seq<StepType>, tail: StepType)

  /** A reference that may be null. */
  datatype Option<+T> = None | Some(value: T)

  /** The elements of a sequence, as a set. */
  function Elems<T>(s: seq<T>): set<T>
  {
    set x | x in s
  }

  /** No element occurs twice. */
  predicate NoDuplicates<T(==)>(s: seq<T>)
  {
    forall i, j :: 0 <= i < j < |s| ==> s[i] != s[j]
  }

  /** Dropping the head of a sequence without duplicates leaves one without
      duplicates, and the head does not occur again. */
  lemma NoDuplicatesTail<T>(s: seq<T>)
    requires |s| > 0 && NoDuplicates(s)
    ensures NoDuplicates(s[1..]) && s[0] !in s[1..]
  {
    forall i, j | 0 <= i < j < |s[1..]| ensures s[1..][i] != s[1..][j] {
      assert s[1..][i] == s[i + 1] && s[1..][j] == s[j + 1];
    }
    forall j | 0 <= j < |s[1..]| ensures s[1..][j] != s[0] {
      assert s[1..][j] == s[j + 1];
    }
  }
}
