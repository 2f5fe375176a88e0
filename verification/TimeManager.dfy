/** Advancing virtual time: `ns_add` of src/controller/time-manager.c. */
module TimeManager {
  import opened Arithmetic
  import opened Basics

  function NsAdd(t: Time, delta: int): Time {
    var ns := Wrap64(t.sec * NS_PER_SEC + t.nsec + delta);
    var out := Time(CDiv(ns, NS_PER_SEC), CMod(ns, NS_PER_SEC));
    if out.nsec < 0 then Time(out.sec - 1, out.nsec + NS_PER_SEC) else out
  }

  /** Despite truncating division the result is normalized and denotes the wrapped sum. */
  lemma NsAddTotal(t: Time, delta: int)
    ensures NsAdd(t, delta).Normalized() && 0 <= NsAdd(t, delta).nsec < 1_000_000_000
    ensures NsAdd(t, delta).Total() == Wrap64(t.Total() + delta)
    ensures NsAdd(t, delta).sec * 1_000_000_000 + NsAdd(t, delta).nsec ==
            Wrap64(t.sec * 1_000_000_000 + t.nsec + delta)
  {}

  /** The sum is exact exactly when it fits int64_t. */
  lemma NsAddExactly(t: Time, delta: int)
    ensures NsAdd(t, delta).Total() == t.Total() + delta <==> InInt64(t.Total() + delta)
  {
    NsAddTotal(t, delta);
  }

  lemma NormalizedUnique(a: Time, b: Time)
    requires a.Normalized() && b.Normalized() && a.Total() == b.Total()
    ensures a == b
  {}

  /** Advancing in two steps is advancing by the sum, even across a wrap. */
  lemma NsAddComposes(t: Time, a: int, b: int)
    ensures NsAdd(NsAdd(t, a), b) == NsAdd(t, a + b)
  {
    hide NsAdd, Wrap64;
    NsAddTotal(t, a);
    NsAddTotal(NsAdd(t, a), b);
    NsAddTotal(t, a + b);
    WrapAdds(t.Total() + a, b);
    NormalizedUnique(NsAdd(NsAdd(t, a), b), NsAdd(t, a + b));
  }
}
