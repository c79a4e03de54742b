/**
 * IndexedDB keys as the object stores of js/db.js use them: numbers (the
 * auto-incremented sync-queue ids, `Date.now()` ids) and strings (class ids).
 * IndexedDB orders every number before every string, numbers by value and
 * strings by code unit, and `getAll()` returns records in that order.
 */
module Keys {

  datatype Key = Num(n: int) | Text(s: string)

  /** Lexicographic order on strings. */
  predicate TextLess(a: string, b: string)
    decreases |a|
  {
    if |a| == 0 then |b| > 0
    else if |b| == 0 then false
    else if a[0] == b[0] then TextLess(a[1..], b[1..])
    else a[0] < b[0]
  }

  /** IndexedDB's key order: numbers first, then strings. */
  predicate Less(a: Key, b: Key) {
    match (a, b)
    case (Num(x), Num(y)) => x < y
    case (Num(_), Text(_)) => true
    case (Text(_), Num(_)) => false
    case (Text(x), Text(y)) => TextLess(x, y)
  }

  lemma {:induction false} TextLessIrreflexive(a: string)
    ensures !TextLess(a, a)
    decreases |a|
  {
    if |a| > 0 {
      TextLessIrreflexive(a[1..]);
    }
  }

  lemma {:induction false} TextLessTransitive(a: string, b: string, c: string)
    requires TextLess(a, b) && TextLess(b, c)
    ensures TextLess(a, c)
    decreases |a|
  {
    if |a| > 0 && |b| > 0 && |c| > 0 && a[0] == b[0] && b[0] == c[0] {
      TextLessTransitive(a[1..], b[1..], c[1..]);
    }
  }

  lemma {:induction false} TextLessTotal(a: string, b: string)
    ensures a == b || TextLess(a, b) || TextLess(b, a)
    decreases |a|
  {
    if |a| > 0 && |b| > 0 && a[0] == b[0] {
      TextLessTotal(a[1..], b[1..]);
      if a[1..] == b[1..] {
        assert a == [a[0]] + a[1..] && b == [b[0]] + b[1..];
      }
    }
  }

  lemma LessIrreflexive(a: Key)
    ensures !Less(a, a)
  {
    if a.Text? {
      TextLessIrreflexive(a.s);
    }
  }

  lemma LessTransitive(a: Key, b: Key, c: Key)
    requires Less(a, b) && Less(b, c)
    ensures Less(a, c)
  {
    if a.Text? && b.Text? && c.Text? {
      TextLessTransitive(a.s, b.s, c.s);
    }
  }

  lemma LessTotal(a: Key, b: Key)
    ensures a == b || Less(a, b) || Less(b, a)
  {
    if a.Text? && b.Text? {
      TextLessTotal(a.s, b.s);
    }
  }

  /** Every non-empty finite set of keys has a least element. */
  lemma {:induction false} LeastExists(keys: set<Key>)
    requires keys != {}
    ensures exists m :: m in keys && forall k :: k in keys && k != m ==> Less(m, k)
    decreases keys
  {
    var x :| x in keys;
    if keys != {x} {
      var rest := keys - {x};
      LeastExists(rest);
      var m :| m in rest && forall k :: k in rest && k != m ==> Less(m, k);
      LessTotal(x, m);
      if Less(x, m) {
        forall k | k in keys && k != x
          ensures Less(x, k)
        {
          if k != m {
            LessTransitive(x, m, k);
          }
        }
      } else {
        assert forall k :: k in keys && k != m ==> Less(m, k);
      }
    }
  }
}
