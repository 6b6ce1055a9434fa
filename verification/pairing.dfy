/** The pairing payload the QR code carries
    (backup_server/server/services/pairing.py, `generate_pairing_data`):
    the compact JSON object `{"id":...,"key":...}` holding the server id
    and the API key, keys in insertion order, no spaces. */
module Pairing {
  import opened Common
  import opened Json

  /** `json.dumps({"id": serverId, "key": apiKey}, separators=(",", ":"))`:
      the two literals behind their keys, between braces. */
  function PairingData(serverId: string, apiKey: string): (r: string)
    ensures |r| >= 2 && r[0] == '{' && r[|r| - 1] == '}'
  {
    "{\"id\":" + (Quote(serverId) + (",\"key\":" + (Quote(apiKey) + "}")))
  }

  /** The payload is printable ASCII, so it fits any QR text mode. */
  lemma PairingDataPrintable(serverId: string, apiKey: string)
    ensures AllPrintable(PairingData(serverId, apiKey))
  {
    var tail := Quote(apiKey) + "}";
    assert AllPrintable("}") && AllPrintable(",\"key\":") && AllPrintable("{\"id\":");
    PrintableConcat(Quote(apiKey), "}");
    PrintableConcat(",\"key\":", tail);
    PrintableConcat(Quote(serverId), ",\"key\":" + tail);
    PrintableConcat("{\"id\":", Quote(serverId) + (",\"key\":" + tail));
  }

  /** A reader for exactly the payload's shape: the fixed `{"id":` prefix,
      a string literal, `,"key":`, a string literal and the closing brace. */
  function ParsePairing(t: string): Option<(string, string)> {
    if !StartsWith(t, "{\"id\":") then None
    else match ParseString(t[6..])
      case None => None
      case Some((id, rest)) =>
        if !StartsWith(rest, ",\"key\":") then None
        else match ParseString(rest[7..])
          case None => None
          case Some((key, tail)) => if tail == "}" then Some((id, key)) else None
  }

  /** The reader takes the payload apart at its two literals. */
  lemma ParseShape(q1: string, q2: string, id: string, key: string)
    requires ParseString(q1 + (",\"key\":" + (q2 + "}"))) == Some((id, ",\"key\":" + (q2 + "}")))
    requires ParseString(q2 + "}") == Some((key, "}"))
    ensures ParsePairing("{\"id\":" + (q1 + (",\"key\":" + (q2 + "}")))) == Some((id, key))
  {
    var afterId := ",\"key\":" + (q2 + "}");
    var t := "{\"id\":" + (q1 + afterId);
    assert t[..6] == "{\"id\":" && t[6..] == q1 + afterId;
    assert afterId[..7] == ",\"key\":" && afterId[7..] == q2 + "}";
  }

  /** The payload gives back both values, however they are spelt. */
  lemma ParsePairingData(serverId: string, apiKey: string)
    ensures ParsePairing(PairingData(serverId, apiKey)) == Some((serverId, apiKey))
  {
    ParseQuoted(serverId, ",\"key\":" + (Quote(apiKey) + "}"));
    ParseQuoted(apiKey, "}");
    ParseShape(Quote(serverId), Quote(apiKey), serverId, apiKey);
  }

  /** Different servers or keys never share a payload. */
  lemma PairingDataInjective(id1: string, key1: string, id2: string, key2: string)
    ensures PairingData(id1, key1) == PairingData(id2, key2) ==> id1 == id2 && key1 == key2
  {
    ParsePairingData(id1, key1);
    ParsePairingData(id2, key2);
  }

  /** For ids and keys of printable ASCII without quotes or backslashes,
      which includes every UUID and every `token_urlsafe` key, the payload
      is the two values written verbatim. */
  lemma PairingDataPlain(serverId: string, apiKey: string)
    requires AllPlain(serverId) && AllPlain(apiKey)
    ensures PairingData(serverId, apiKey) ==
              "{\"id\":\"" + serverId + "\",\"key\":\"" + apiKey + "\"}"
  {
    EscapePlain(serverId);
    EscapePlain(apiKey);
    PlainShape(serverId, apiKey, Quote(serverId), Quote(apiKey));
  }

  lemma PlainShape(serverId: string, apiKey: string, q1: string, q2: string)
    requires q1 == "\"" + serverId + "\"" && q2 == "\"" + apiKey + "\""
    ensures "{\"id\":" + (q1 + (",\"key\":" + (q2 + "}"))) ==
              "{\"id\":\"" + serverId + "\",\"key\":\"" + apiKey + "\"}"
  {
    assert "{\"id\":\"" == "{\"id\":" + "\"";
    assert "\",\"key\":\"" == "\"" + ",\"key\":" + "\"";
    assert "\"}" == "\"" + "}";
  }
}
