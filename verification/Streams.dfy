// Time-stamped messages of several senders: what was read for an id, what was sent for it.
module Streams {
  import opened Prelude

  /** A text read or sent for an id at a time. */
  datatype Emission = Emission(id: string, payload: string, at: U64)

  function Payloads(s: seq<Emission>): (p: seq<string>)
    ensures |p| == |s|
    ensures s != [] ==> Last(p) == Last(s).payload
  {
    if s == [] then [] else Payloads(Front(s)) + [Last(s).payload]
  }

  function OfId(s: seq<Emission>, id: string): seq<Emission> {
    if s == [] then []
    else OfId(Front(s), id) + if Last(s).id == id then [Last(s)] else []
  }

  lemma {:induction false} OfIdConcat(s: seq<Emission>, t: seq<Emission>, id: string)
    ensures OfId(s + t, id) == OfId(s, id) + OfId(t, id)
  {
    if t == [] {
      assert s + t == s;
    } else {
      OfIdConcat(s, Front(t), id);
      assert Front(s + t) == s + Front(t);
    }
  }

  lemma PayloadsSnoc(s: seq<Emission>, x: Emission)
    ensures Collapse(Payloads(s + [x]))
            == if s != [] && Last(s).payload == x.payload then Collapse(Payloads(s))
               else Collapse(Payloads(s)) + [x.payload]
  {
    assert Front(s + [x]) == s;
    CollapseSnoc(Payloads(s), x.payload);
  }

  predicate SpacedBy(s: seq<Emission>, gap: nat) {
    forall i :: 0 < i < |s| ==> s[i].at - s[i - 1].at >= gap
  }

  predicate RepeatsSpacedBy(s: seq<Emission>, gap: nat) {
    forall i :: 0 < i < |s| && s[i].payload == s[i - 1].payload ==> s[i].at - s[i - 1].at >= gap
  }
}
