/** A watermark records the last acknowledged message: its id and position.
    Both the "written" and the "durably flushed" watermarks of a source
    advance by the same rule: the next id must be exactly one more than the
    last (or 1 when nothing was recorded yet). */
module Watermarks {
  import opened Wrappers

  /** Message ids as the scheduler hands them out: 1, 2, 3, ... */
  type Id = n: int | 1 <= n witness 1

  /** Python's `id or 0` on an optional id. */
  function OrZero(id: Option<Id>): (n: nat)
    ensures id.None? ==> n == 0
    ensures id.Some? ==> n == id.value && n >= 1
  {
    match id
    case None => 0
    case Some(v) => v
  }

  datatype Watermark<P> = Watermark(id: Option<Id>, position: Option<P>)

  /** The watermark of a freshly constructed source. */
  function Unset<P>(): Watermark<P> {
    Watermark(None, None)
  }

  /** An id and a position are recorded together or not at all. */
  predicate Recorded<P>(w: Watermark<P>) {
    w.id.None? <==> w.position.None?
  }

  /** The only id the next acknowledgement may carry. */
  function Expected<P>(w: Watermark<P>): Id {
    OrZero(w.id) + 1
  }

  /** One acknowledgement: a message id and its backend position. */
  datatype Ack<P> = Ack(id: int, position: P)

  /** Move the watermark to `(id, position)`; `None` when `id` is not the
      expected next id (the id assert of `Source.set_write_position` or
      `Source.set_flush_position` fails). */
  function Advance<P>(w: Watermark<P>, id: int, position: P): (r: Option<Watermark<P>>)
    ensures r.Some? <==> id == OrZero(w.id) + 1
    ensures r.Some? ==> r.value.id == Some(id) && r.value.position == Some(position)
    ensures r.Some? ==> Recorded(r.value) && OrZero(r.value.id) > OrZero(w.id)
  {
    if id == Expected(w) then Some(Watermark(Some(id), Some(position))) else None
  }

  /** The acknowledgements carry the ids first, first + 1, first + 2, ... */
  predicate ConsecutiveFrom<P>(first: int, acks: seq<Ack<P>>) {
    forall k :: 0 <= k < |acks| ==> acks[k].id == first + k
  }

  /** Apply the acknowledgements one after another, stopping at the first
      one that is refused. */
  function AdvanceAll<P>(w: Watermark<P>, acks: seq<Ack<P>>): Option<Watermark<P>>
    decreases |acks|
  {
    if |acks| == 0 then Some(w)
    else
      match Advance(w, acks[0].id, acks[0].position)
      case None => None
      case Some(w') => AdvanceAll(w', acks[1..])
  }

  /** A run of acknowledgements is accepted exactly when its ids continue the
      watermark without a gap, a repeat or a regression; it then leaves the
      watermark at the last acknowledgement, |acks| ids further on. */
  lemma {:induction false} AdvanceAllAcceptsExactlyConsecutive<P>(w: Watermark<P>, acks: seq<Ack<P>>)
    ensures AdvanceAll(w, acks).Some? <==> ConsecutiveFrom(Expected(w), acks)
    ensures |acks| == 0 ==> AdvanceAll(w, acks) == Some(w)
    ensures AdvanceAll(w, acks).Some? && |acks| > 0 ==>
      && AdvanceAll(w, acks).value.id == Some(acks[|acks| - 1].id)
      && AdvanceAll(w, acks).value.position == Some(acks[|acks| - 1].position)
      && OrZero(AdvanceAll(w, acks).value.id) == OrZero(w.id) + |acks|
    decreases |acks|
  {
    if |acks| > 0 {
      var a := acks[0];
      var rest := acks[1..];
      match Advance(w, a.id, a.position)
      case None =>
        assert !ConsecutiveFrom(Expected(w), acks) by {
          assert acks[0].id != Expected(w) + 0;
        }
      case Some(w') =>
        AdvanceAllAcceptsExactlyConsecutive(w', rest);
        assert Expected(w') == Expected(w) + 1;
        if ConsecutiveFrom(Expected(w), acks) {
          assert forall k :: 0 <= k < |rest| ==> rest[k] == acks[k + 1];
          assert ConsecutiveFrom(Expected(w'), rest);
        }
        if ConsecutiveFrom(Expected(w'), rest) {
          forall k | 0 <= k < |acks|
            ensures acks[k].id == Expected(w) + k
          {
            if k > 0 {
              assert acks[k] == rest[k - 1];
            }
          }
        }
        if |rest| == 0 {
          assert AdvanceAll(w, acks) == Some(w');
        } else {
          assert rest[|rest| - 1] == acks[|acks| - 1];
        }
    }
  }
}
