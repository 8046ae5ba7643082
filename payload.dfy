/** Building the GELF-style field map that Fire serialises, and framing the serialised bytes. */
module Payload {
  import opened Wrappers
  import opened Logrus
  import Brackets

  const TokenKey: string := "X-OVH-TOKEN"
  const HostKey: string := "host"
  const VersionKey: string := "version"
  const LevelKey: string := "level"
  const MsgKey: string := "msg"
  const TimestampKey: string := "timestamp"
  const TitleKey: string := "title"

  /** The protocol version enrich always writes. */
  const GelfVersion: string := "1.1"

  /** The keys the hook writes over whatever the caller supplied under them. */
  const InjectedKeys: set<string> := {TokenKey, HostKey, VersionKey}
  const EntryKeys: set<string> := {LevelKey, MsgKey, TimestampKey}

  /** What enrich returns: the caller's fields with token, host and version forced. */
  function Enriched(fields: Fields, token: string, host: string): (r: Fields)
    ensures r.Keys == fields.Keys + InjectedKeys
    ensures r[TokenKey] == Str(token) && r[HostKey] == Str(host) && r[VersionKey] == Str(GelfVersion)
    ensures forall k :: k in fields && k !in InjectedKeys ==> r[k] == fields[k]
  {
    fields[TokenKey := Str(token)][HostKey := Str(host)][VersionKey := Str(GelfVersion)]
  }

  /** enrich: copies the caller's map key by key into a fresh one, then sets the three injected keys. */
  method Enrich(fields: Fields, token: string, host: string) returns (result: Fields)
    ensures result == Enriched(fields, token, host)
  {
    result := map[];
    var pending := fields.Keys;
    while pending != {}
      invariant pending <= fields.Keys
      invariant result.Keys == fields.Keys - pending
      invariant forall k :: k in result ==> result[k] == fields[k]
      decreases pending
    {
      var k :| k in pending;
      result := result[k := fields[k]];
      pending := pending - {k};
    }
    assert result == fields;
    result := result[TokenKey := Str(token)];
    result := result[HostKey := Str(host)];
    result := result[VersionKey := Str(GelfVersion)];
  }

  /** The field map Fire hands to the serialiser for one entry. */
  function Payload(entry: Entry, token: string, host: string): (r: Fields)
    ensures r.Keys == entry.data.Keys + InjectedKeys + EntryKeys
                      + (if Brackets.Title(entry.message) != "" then {TitleKey} else {})
    ensures r[TokenKey] == Str(token) && r[HostKey] == Str(host) && r[VersionKey] == Str(GelfVersion)
    ensures r[LevelKey] == LevelValue(entry.level)
    ensures r[MsgKey] == Str(Brackets.Clean(entry.message))
    ensures r[TimestampKey] == Int(entry.unixTime)
    ensures Brackets.Title(entry.message) != "" ==> r[TitleKey] == Str(Brackets.Title(entry.message))
    ensures forall k ::
              (k in entry.data && k !in InjectedKeys && k !in EntryKeys
               && (k != TitleKey || Brackets.Title(entry.message) == "")) ==> r[k] == entry.data[k]
  {
    var title := Brackets.Title(entry.message);
    var fields := Enriched(entry.data, token, host)
      [LevelKey := LevelValue(entry.level)]
      [MsgKey := Str(Brackets.Clean(entry.message))]
      [TimestampKey := Int(entry.unixTime)];
    if |title| > 0 then fields[TitleKey := Str(title)] else fields
  }

  /** The frame written to the connection: the serialised bytes and one trailing zero byte. */
  function Frame(bytes: seq<bv8>): (r: seq<bv8>)
    ensures |r| == |bytes| + 1 && r[..|bytes|] == bytes && r[|bytes|] == 0
    ensures 0 !in bytes ==> forall k :: 0 <= k < |r| && r[k] == 0 ==> k == |bytes|
  {
    bytes + [0]
  }
}
