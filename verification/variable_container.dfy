/** The shared store of values produced by successful steps, keyed by step type. */
module VariableContainers {
  import opened Types

  /** The store. A ConcurrentHashMap cannot hold null, so every present key has a value. */
  datatype VariableContainer = VariableContainer(vars: map<StepType, Value>)
  {
    /** `isVariableExist`: the key is present. */
    predicate IsVariableExist(key: StepType)
    {
      key in vars
    }

    /** `getVariable`: the stored value, or null for an absent key (not an error). */
    function GetVariable(key: StepType): (r: Option<Value>)
      ensures r.Some? <==> IsVariableExist(key)
      ensures r.Some? ==> r.value == vars[key]
    {
      if key in vars then Some(vars[key]) else None
    }

    /** `putVariable`: a null value is ignored; otherwise the key is (over)written. */
    function PutVariable(key: StepType, v: Option<Value>): (r: VariableContainer)
      ensures v.None? ==> r == this
      ensures v.Some? ==> r.GetVariable(key) == v && r.IsVariableExist(key)
      ensures forall k :: k != key ==> r.GetVariable(k) == GetVariable(k)
      ensures r.vars.Keys == if v.Some? then vars.Keys + {key} else vars.Keys
    {
      match v
      case None => this
      case Some(x) => VariableContainer(vars[key := x])
    }

    /** `clear`: afterwards no key exists. */
    function Clear(): (r: VariableContainer)
      ensures forall k :: !r.IsVariableExist(k)
    {
      VariableContainer(map[])
    }
  }

  /** A fresh container, as the task's constructor creates it. */
  function Empty(): (r: VariableContainer)
    ensures forall k :: r.GetVariable(k).None?
  {
    VariableContainer(map[])
  }

  /** Reading a key right after writing it gives back what was written, or
      what was there before when the write was null. */
  lemma GetAfterPut(c: VariableContainer, key: StepType, v: Option<Value>)
    ensures c.PutVariable(key, v).GetVariable(key) == (if v.Some? then v else c.GetVariable(key))
  {
  }

  /** Writing the same non-null value twice is the same as writing it once. */
  lemma PutIdempotent(c: VariableContainer, key: StepType, v: Option<Value>)
    ensures c.PutVariable(key, v).PutVariable(key, v) == c.PutVariable(key, v)
  {
  }

  /** Writes to different keys commute. */
  lemma PutCommutes(c: VariableContainer, k1: StepType, v1: Option<Value>, k2: StepType, v2: Option<Value>)
    requires k1 != k2
    ensures c.PutVariable(k1, v1).PutVariable(k2, v2) == c.PutVariable(k2, v2).PutVariable(k1, v1)
  {
  }
}
