/** internal/relaytransport/protocol.go: relay frames and the rules they must meet. */
module RelayFrame {
  import opened GoStrings
  import opened GoTime

  const PROTOCOL_VERSION := 1
  const MAXIMUM_CIPHERTEXT_SIZE := 4 * 1024 * 1024

  datatype Frame = Frame(
    protocolVersion: int,
    messageId: string,
    kind: string,
    downstreamEndpointId: string,
    senderId: string,
    recipientId: string,
    recipientKeyId: string,
    sequence: nat,
    createdAt: int,
    ephemeralPublicKey: string,
    nonce: string,
    ciphertext: string,
    signature: string)

  predicate IsHexDigit(c: char) { IsDigit(c) || 'a' <= c <= 'f' || 'A' <= c <= 'F' }

  predicate AllowedKind(kind: string) {
    kind in ["agent_check_in", "server_reply", "agent_log_batch", "integrity_alert", "tamper_alert"]
  }

  /** The part of `ValidateFrame` that does not depend on the clock. */
  predicate WellFormedFrame(frame: Frame) {
    && frame.protocolVersion == PROTOCOL_VERSION
    && |frame.messageId| == 32 && (forall i :: 0 <= i < 32 ==> IsHexDigit(frame.messageId[i]))
    && AllowedKind(frame.kind)
    && frame.downstreamEndpointId != "" && frame.senderId != "" && frame.recipientId != ""
    && frame.recipientKeyId != "" && frame.sequence != 0 && frame.createdAt != ZERO_TIME
    && 1 <= |frame.ciphertext| <= MAXIMUM_CIPHERTEXT_SIZE
    && |frame.ephemeralPublicKey| == 32 && |frame.nonce| == 12 && 64 <= |frame.signature| <= 80
  }

  predicate ValidateFrame(frame: Frame, now: int) {
    && WellFormedFrame(frame)
    && now - 30 * DAY <= frame.createdAt <= now + 5 * MINUTE
  }
}
