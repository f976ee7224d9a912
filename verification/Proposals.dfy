/** Signed grant requests: what a resource server freezes and the authorization server checks. */
module Proposals {
  import opened Cedar
  import opened Presentations

  /** What gets signed: everything but the signature. Its byte encoding is taken to be faithful. */
  datatype Payload = Payload(serverId: string, presentation: Presentation, policies: seq<Policy>)

  /** The keyed hash, left unspecified. */
  type Mac = (string, Payload) -> string

  datatype SignedItem = SignedItem(serverId: string, presentation: Presentation, policies: seq<Policy>,
                                   signature: string)

  function Canonical(i: SignedItem): Payload
  {
    Payload(i.serverId, i.presentation, i.policies)
  }

  function Sign(mac: Mac, secret: string, serverId: string, presentation: Presentation,
                policies: seq<Policy>): SignedItem
  {
    SignedItem(serverId, presentation, policies, mac(secret, Payload(serverId, presentation, policies)))
  }

  predicate Verifies(mac: Mac, secret: string, i: SignedItem)
  {
    i.signature == mac(secret, Canonical(i))
  }
}
