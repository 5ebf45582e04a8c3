/** The table without expiry as a plain map of bounded size. */
module PlainTable {
  import opened Arena
  import opened Dictionary
  import opened TableOperation

  type Plain = map<int, int>

  function PlainStep(s: Plain, q: Msg): (Plain, Reply) {
    match q.op
    case GET => (s, if q.key in s then Reply(DONE, s[q.key]) else Reply(NO_KEY, q.value))
    case SET =>
      if q.key in s || |s| < BUFFER_SIZE
      then (s[q.key := q.value], Reply(DONE, q.value))
      else (s, Reply(NO_MEMORY, q.value))
    case DEL => if q.key in s then (s - {q.key}, Reply(DONE, q.value)) else (s, Reply(NO_KEY, q.value))
    case QUIT => (s, Reply(DONE, q.value))
  }

  ghost predicate Represents(m: Memory<int>, v: View, s: Plain) {
    Valid(m, v) && Contents(m, v) == s
  }

  /** A request run at once does to the memory what it does to the plain map. */
  lemma OutcomeIsPlainStep(m: Memory<int>, v: View, q: Msg) returns (w: View)
    requires Valid(m, v) && q.op != QUIT
    ensures Represents(Outcome(m, v, q).0, w, PlainStep(Contents(m, v), q).0)
    ensures Outcome(m, v, q).1 == PlainStep(Contents(m, v), q).1
    ensures q.op == GET ==> Outcome(m, v, q).0 == m
  {
    w := v;
    ReservedPlusFree(m, v);
    var n := Holder(v, q.key);
    if n != NIL {
      if q.op == SET {
        OverwriteUpdates(m, v, n, q.value);
      } else if q.op == DEL {
        ReleaseRemoves(m, v, n);
        w := View(Move(v.layout, n, FREE), v.at - {m.data[n].key});
      }
    } else if q.op == SET && m.table[FREE] != NIL {
      InsertAdds(m, v, q.key, q.value);
      w := View(Move(v.layout, m.table[FREE], GetHash(q.key)), v.at[q.key := m.table[FREE]]);
    }
  }
}
