/** Event envelopes and the invariants they carry (crates/types). */
module Types {
  import opened Wrappers
  import opened Numbers

  datatype EventSource =
    Ingress | Normalizer | StateEngine | OpportunityEngine | RiskEngine | Simulator | Execution | Relay

  datatype ChainContext = ChainContext(chainId: u64, blockNumber: u64, blockHash: nat)

  datatype PublishMeta = PublishMeta(
    source: EventSource,
    chainContext: ChainContext,
    eventVersion: u16,
    correlationId: u64)

  datatype TypesError = TimestampZero | EventVersionZero | ChainIdZero

  datatype Envelope<P> = Envelope(sequence: u64, timestampNs: u64, meta: PublishMeta, payload: P)

  /** The first violated invariant, in the order the checks are made. */
  function CheckInvariants(timestampNs: u64, eventVersion: u16, chainId: u64): Option<TypesError> {
    if timestampNs == 0 then Some(TimestampZero)
    else if eventVersion == 0 then Some(EventVersionZero)
    else if chainId == 0 then Some(ChainIdZero)
    else None
  }

  function Validate<P>(e: Envelope<P>): (r: Option<TypesError>)
    ensures r == Some(TimestampZero) <==> e.timestampNs == 0
    ensures r == Some(EventVersionZero) <==> e.timestampNs != 0 && e.meta.eventVersion == 0
    ensures r == Some(ChainIdZero) <==>
      e.timestampNs != 0 && e.meta.eventVersion != 0 && e.meta.chainContext.chainId == 0
  {
    CheckInvariants(e.timestampNs, e.meta.eventVersion, e.meta.chainContext.chainId)
  }

  predicate IsValid<P>(e: Envelope<P>) {
    Validate(e) == None
  }

  function Seal<P>(meta: PublishMeta, payload: P, sequence: u64, timestampNs: u64): (r: Result<Envelope<P>, TypesError>)
    ensures r.Ok? ==> IsValid(r.value) && r.value == Envelope(sequence, timestampNs, meta, payload)
    ensures r.Err? <==> timestampNs == 0 || meta.eventVersion == 0 || meta.chainContext.chainId == 0
    ensures r.Err? ==> Validate(Envelope(sequence, timestampNs, meta, payload)) == Some(r.error)
  {
    match CheckInvariants(timestampNs, meta.eventVersion, meta.chainContext.chainId)
    case Some(e) => Err(e)
    case None => Ok(Envelope(sequence, timestampNs, meta, payload))
  }
}
