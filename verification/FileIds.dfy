/** File identifiers and the order acknowledgements and the cache rely on. */
module FileIds {

  datatype FileId = FileId(maj: int, min: int)

  const ZERO := FileId(0, 0)

  ghost predicate Natural(d: FileId) { d.maj >= 0 && d.min >= 0 }

  /** `TR_file_id_compare`: true when the first id is greater. */
  predicate Newer(a: FileId, b: FileId) {
    if a.maj < b.maj then false
    else if a.maj > b.maj then true
    else if a.min <= b.min then false
    else true
  }

  /** The comparison is a strict total order. */
  lemma NewerIsStrictOrder(a: FileId, b: FileId, c: FileId)
    ensures !Newer(a, a)
    ensures Newer(a, b) && Newer(b, c) ==> Newer(a, c)
    ensures a != b <==> Newer(a, b) || Newer(b, a)
    ensures !(Newer(a, b) && Newer(b, a))
  {
  }

  const INT32_LIMIT: nat := 0x8000_0000
  const INT_MAX: int := 0x7FFF_FFFF

  /** An id whose parts are `int` and not negative. */
  ghost predicate IntId(d: FileId) { 0 <= d.maj <= INT_MAX && 0 <= d.min <= INT_MAX }

  /** `++` on an `int` that wraps around. */
  function Incremented(n: int): int { if n == INT_MAX then -INT_MAX - 1 else n + 1 }

  /** What an `unsigned long` becomes in an `int`. */
  function ToInt32(n: nat): int {
    var m := n % 0x1_0000_0000;
    if m < 0x8000_0000 then m else m - 0x1_0000_0000
  }

  /** In message mode the client sends item `n` under this id. */
  function MessageId(n: nat): FileId { FileId(1, ToInt32(n)) }

  ghost predicate OrderKept(n: nat) {
    forall a: nat, b: nat :: 1 <= a <= n && 1 <= b <= n ==> (Newer(MessageId(a), MessageId(b)) <==> a > b)
  }

  /** Message ids are ordered as the items were written exactly while item ids fit an `int`. */
  lemma OrderKeptIff(n: nat)
    ensures OrderKept(n) <==> n < INT32_LIMIT
  {
    if n >= INT32_LIMIT {
      assert ToInt32(INT32_LIMIT) == -0x8000_0000 && ToInt32(1) == 1;
      assert !Newer(MessageId(INT32_LIMIT), MessageId(1));
    } else {
      forall a: nat | a <= n ensures ToInt32(a) == a {}
    }
  }

  ghost predicate Increasing(s: seq<FileId>) {
    forall i, j :: 0 <= i < j < |s| ==> Newer(s[j], s[i])
  }
}
