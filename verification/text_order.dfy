/** Byte-wise order on strings, as Go compares them. */
module TextOrder {
  import opened Sequences

  predicate Less(a: string, b: string) {
    b != "" && (a == "" || a[0] < b[0] || (a[0] == b[0] && Less(a[1..], b[1..])))
  }

  // The strings agree up to `k`, where the first one ends or has the smaller byte.
  predicate LessAt(a: string, b: string, k: nat) {
    k <= |a| && k < |b| && a[..k] == b[..k] && (k == |a| || a[k] < b[k])
  }

  lemma LessAtHead(a: string, b: string, k: nat)
    requires LessAt(a, b, k)
    ensures b != "" && (a == "" || a[0] <= b[0])
    ensures k > 0 ==> a != "" && a[0] == b[0]
  {
    if k > 0 { assert a[..k][0] == b[..k][0]; }
  }

  /** One string is less than another exactly if it is a proper prefix, or smaller where the two first differ. */
  lemma {:induction false} LessIff(a: string, b: string)
    ensures Less(a, b) <==> exists k: nat :: LessAt(a, b, k)
  {
    if a != "" && b != "" && a[0] == b[0] {
      LessIff(a[1..], b[1..]);
      if k: nat :| LessAt(a[1..], b[1..], k) {
        assert a[..k + 1] == [a[0]] + a[1..][..k] && b[..k + 1] == [b[0]] + b[1..][..k];
        assert LessAt(a, b, k + 1);
      }
      if k: nat :| LessAt(a, b, k) {
        assert k > 0;
        assert a[1..][..k - 1] == a[..k][1..] && b[1..][..k - 1] == b[..k][1..];
        assert LessAt(a[1..], b[1..], k - 1);
      }
    } else if b != "" && (a == "" || a[0] < b[0]) {
      assert LessAt(a, b, 0);
    } else if k: nat :| LessAt(a, b, k) {
      LessAtHead(a, b, k);
    }
  }

  lemma {:induction false} LessIrreflexive(a: string)
    ensures !Less(a, a)
  {
    if a != "" { LessIrreflexive(a[1..]); }
  }

  lemma {:induction false} LessTotal(a: string, b: string)
    ensures a == b || Less(a, b) || Less(b, a)
  {
    if a != "" && b != "" && a[0] == b[0] {
      LessTotal(a[1..], b[1..]);
      HeadAndTail(a);
      HeadAndTail(b);
    }
  }

  lemma {:induction false} LessTransitive(a: string, b: string, c: string)
    requires Less(a, b) && Less(b, c)
    ensures Less(a, c)
  {
    if a != "" && a[0] == b[0] && b[0] == c[0] { LessTransitive(a[1..], b[1..], c[1..]); }
  }

  lemma LessAsymmetric(a: string, b: string)
    requires Less(a, b)
    ensures !Less(b, a) && a != b
  {
    if Less(b, a) { LessTransitive(a, b, a); }
    LessIrreflexive(a);
  }

  lemma {:induction false} LessUnderPrefix(p: string, a: string, b: string)
    ensures Less(p + a, p + b) <==> Less(a, b)
  {
    if p == "" {
      ConcatNil(a);
      ConcatNil(b);
    } else {
      CutFirst(p, a, 1);
      CutFirst(p, b, 1);
      LessUnderPrefix(p[1..], a, b);
    }
  }

  // Lengthening the greater string keeps the order.
  lemma {:induction false} LessExtendRight(a: string, b: string, x: string)
    requires Less(a, b)
    ensures Less(a, b + x)
  {
    if a != "" && a[0] == b[0] {
      CutFirst(b, x, 1);
      LessExtendRight(a[1..], b[1..], x);
    }
  }

  // Lengthening the smaller one keeps it too, unless it was a prefix.
  lemma {:induction false} LessExtendLeft(a: string, b: string, x: string)
    requires Less(a, b) && !(a <= b)
    ensures Less(a + x, b)
  {
    if a[0] == b[0] {
      CutFirst(a, x, 1);
      HeadAndTail(a);
      HeadAndTail(b);
      LessExtendLeft(a[1..], b[1..], x);
    }
  }

  // A proper prefix comes first.
  lemma {:induction false} PrefixIsLess(a: string, b: string)
    requires a < b
    ensures Less(a, b)
  {
    if a != "" { PrefixIsLess(a[1..], b[1..]); }
  }
}
