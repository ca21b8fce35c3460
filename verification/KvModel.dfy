/** The oracle a correct store is compared with: two lines per operation. */
module KvModel {
  import opened Common
  import opened Kv

  /** key and Some(put) or None(delete) */
  datatype Change = Change(k: U32, v: Option<U32>)

  datatype Oracle = Oracle(committed: Mem, pending: seq<Change>)

  function ApplyChange(m: Mem, c: Change): Mem {
    match c.v
    case Some(v) => m[c.k := v]
    case None => m - {c.k}
  }

  function ApplyChanges(m: Mem, cs: seq<Change>): Mem {
    if cs == [] then m else ApplyChange(ApplyChanges(m, cs[..|cs| - 1]), cs[|cs| - 1])
  }

  function OracleStep(m: Oracle, op: Op): Oracle {
    match op
    case Put(k, v) => m.(pending := m.pending + [Change(k, Some(v))])
    case Delete(k) => m.(pending := m.pending + [Change(k, None)])
    case Commit => Oracle(ApplyChanges(m.committed, m.pending), [])
    case Crash => m.(pending := [])
  }

  class Model {
    var committed: Mem
    var pending: seq<Change>

    function View(): Oracle
      reads this
    {
      Oracle(committed, pending)
    }

    constructor ()
      ensures View() == Oracle(map[], [])
    {
      committed, pending := map[], [];
    }

    method Apply(op: Op)
      modifies this
      ensures View() == OracleStep(old(View()), op)
    {
      match op {
        case Put(k, v) => pending := pending + [Change(k, Some(v))];
        case Delete(k) => pending := pending + [Change(k, None)];
        case Commit =>
          ghost var done: seq<Change> := [];
          while pending != []
            invariant done + pending == old(pending)
            invariant committed == ApplyChanges(old(committed), done)
            decreases |pending|
          {
            var c := pending[0];
            pending := pending[1..];
            assert (done + [c])[..|done|] == done;
            done := done + [c];
            match c.v {
              case Some(v) => committed := committed[c.k := v];
              case None => committed := committed - {c.k};
            }
          }
          assert done + [] == done;
        case Crash => pending := [];
      }
    }

    function Expected(): Mem
      reads this
    {
      committed
    }
  }
}
