/**
 * `struct entry_vec`: the growable collection every module's symbols are
 * appended to. The buffer starts with room for eight entries and doubles
 * whenever a push would overflow it.
 */
module EntryVector {
  import opened Entries

  const INITIAL_CAPACITY: int := 8

  class EntryVec {
    var data: array<Entry>
    var n: int
    var cap: int

    /** `n` entries are in use out of `cap`, and `cap` is the buffer's length. */
    ghost predicate Valid()
      reads this
    {
      0 <= n <= cap && cap == data.Length && cap >= INITIAL_CAPACITY
    }

    /** The entries pushed so far, in order. */
    ghost function Contents(): seq<Entry>
      reads this, data
      requires Valid()
    {
      data[..n]
    }

    /** `entry_vec_init`: an empty vector with capacity 8. */
    constructor ()
      ensures Valid() && fresh(data)
      ensures n == 0 && cap == INITIAL_CAPACITY && Contents() == []
    {
      data := new Entry[INITIAL_CAPACITY];
      cap := INITIAL_CAPACITY;
      n := 0;
    }

    /**
     * `entry_vec_push`: doubles the capacity only when the entry does not fit,
     * keeps the entries already stored, and stores `e` at the old `n`.
     */
    method Push(e: Entry)
      requires Valid()
      modifies this, data
      ensures Valid()
      ensures n == old(n) + 1
      ensures cap == if old(n) + 1 > old(cap) then 2 * old(cap) else old(cap)
      ensures data == old(data) || fresh(data)
      ensures data[old(n)] == e
      ensures data[..old(n)] == old(data[..n])
      ensures Contents() == old(Contents()) + [e]
    {
      if n + 1 > cap {
        cap := cap * 2;
        var grown := new Entry[cap];
        forall k | 0 <= k < n {
          grown[k] := data[k];
        }
        data := grown;
      }
      data[n] := e;
      n := n + 1;
    }
  }
}
