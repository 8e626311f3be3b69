/**
 The tagger (`update_metadata`): merges four fixed entries into a file's MP4
 tag mapping and keeps every other entry. Reading and saving the container
 are outside the model; the tag mapping is read and written as a whole.
 */
module Tags {
  import opened Results
  import Bytes

  /** An MP4 tag value: a list of text items, or a list of free-form binary items. */
  datatype TagValue = Texts(texts: seq<string>) | FreeForms(blobs: seq<seq<Bytes.byte>>)

  /** The tag mapping of one container, keyed by atom name or free-form `----:mean:name` key. */
  type TagMap = map<string, TagValue>

  /** The encoder-tool atom, `©too`. */
  const ToolKey: string := "\U{A9}too"
  const ChromaKey: string := "----:com.apple.quicktime:ChromaSubsampling"
  const BitDepthKey: string := "----:com.apple.quicktime:BitsPerComponent"
  const ColorProfileKey: string := "----:com.apple.quicktime:ColorProfile"

  /** The keys the tagger writes. */
  const FixedKeys: set<string> := {ToolKey, ChromaKey, BitDepthKey, ColorProfileKey}

  /** The colour-profile payload as written in hexadecimal. */
  const ColorProfileHex: string := "6E636C7801010101010100"

  /** The colour-profile payload: the four letters `nclx`, six bytes of 1, one byte of 0. */
  const ColorProfile: seq<Bytes.byte> := [0x6E, 0x63, 0x6C, 0x78, 0x01, 0x01, 0x01, 0x01, 0x01, 0x01, 0x00]

  /** Any four bytes spelling `nclx` render as its hexadecimal text. */
  lemma NclxRendering(b: seq<Bytes.byte>)
    requires |b| == 4 && b[0] == 0x6E && b[1] == 0x63 && b[2] == 0x6C && b[3] == 0x78
    ensures Bytes.ToHex(b) == "6E636C78"
  {
    Bytes.ToHexAt(b, 0); Bytes.ToHexAt(b, 1); Bytes.ToHexAt(b, 2); Bytes.ToHexAt(b, 3);
  }

  /** Six one-bytes and a zero byte render as their hexadecimal text. */
  lemma IndexRendering(b: seq<Bytes.byte>)
    requires |b| == 7 && b[0] == 1 && b[1] == 1 && b[2] == 1 && b[3] == 1 && b[4] == 1 && b[5] == 1 && b[6] == 0
    ensures Bytes.ToHex(b) == "01010101010100"
  {
    Bytes.ToHexAt(b, 0); Bytes.ToHexAt(b, 1); Bytes.ToHexAt(b, 2); Bytes.ToHexAt(b, 3);
    Bytes.ToHexAt(b, 4); Bytes.ToHexAt(b, 5); Bytes.ToHexAt(b, 6);
  }

  /** Any eleven bytes equal to the colour-profile payload render as the hexadecimal text the tagger decodes. */
  lemma ColorProfileRendering(b: seq<Bytes.byte>)
    requires |b| == 11 && b[0] == 0x6E && b[1] == 0x63 && b[2] == 0x6C && b[3] == 0x78
    requires b[4] == 1 && b[5] == 1 && b[6] == 1 && b[7] == 1 && b[8] == 1 && b[9] == 1 && b[10] == 0
    ensures Bytes.ToHex(b) == ColorProfileHex
  {
    NclxRendering(b[..4]);
    IndexRendering(b[4..]);
    Bytes.ToHexAppend(b[..4], b[4..]);
    assert b[..4] + b[4..] == b;
    HexHalves();
  }

  /** The hexadecimal text in two parts: `nclx`, then the seven trailing bytes. */
  lemma HexHalves()
    ensures ColorProfileHex == "6E636C78" + "01010101010100"
  {
  }

  /** `bytes.fromhex` of the hexadecimal text is the colour-profile payload. */
  lemma ColorProfileDecodes()
    ensures Bytes.FromHex(ColorProfileHex) == Some(ColorProfile)
  {
    ColorProfileRendering(ColorProfile);
    Bytes.FromHexToHex(ColorProfile);
  }

  /** The payload opens with the four-letter tag `nclx`. */
  lemma ColorProfileIsNclx()
    ensures |ColorProfile| == 11 && ColorProfile[..4] == Bytes.Ascii("nclx")
  {
    assert Bytes.Ascii("nclx") == [0x6E, 0x63, 0x6C, 0x78];
  }

  /** The ASCII payloads of the two text-like free-form entries. */
  lemma AsciiPayloads()
    ensures Bytes.Ascii("4:2:2") == [0x34, 0x3A, 0x32, 0x3A, 0x32]
    ensures Bytes.Ascii("10") == [0x31, 0x30]
  {
  }

  /**
   The entries the tagger writes, with their exact values. The colour-profile
   payload is the decoding of `ColorProfileHex` (`ColorProfileDecodes`).
   */
  function FixedTags(): (t: TagMap)
    ensures t.Keys == FixedKeys
    ensures t[ToolKey] == Texts(["HEVC h.265 4:2:2 10-bit"])
    ensures t[ChromaKey] == FreeForms([[0x34, 0x3A, 0x32, 0x3A, 0x32]])
    ensures t[BitDepthKey] == FreeForms([[0x31, 0x30]])
    ensures t[ColorProfileKey] == FreeForms([ColorProfile])
  {
    AsciiPayloads();
    map[
      ToolKey := Texts(["HEVC h.265 4:2:2 10-bit"]),
      ChromaKey := FreeForms([Bytes.Ascii("4:2:2")]),
      BitDepthKey := FreeForms([Bytes.Ascii("10")]),
      ColorProfileKey := FreeForms([ColorProfile])
    ]
  }

  /**
   The tag update: a file without a tag mapping gets an empty one, then the
   four fixed entries are assigned one after the other.
   */
  function UpdateMetadata(tags: Option<TagMap>): (r: TagMap)
    ensures r.Keys == (if tags.Some? then tags.value.Keys else {}) + FixedKeys
    ensures forall k :: k in FixedKeys ==> r[k] == FixedTags()[k]
  {
    var before := if tags.None? then map[] else tags.value;
    var fixed := FixedTags();
    before[ToolKey := fixed[ToolKey]]
          [ChromaKey := fixed[ChromaKey]]
          [BitDepthKey := fixed[BitDepthKey]]
          [ColorProfileKey := fixed[ColorProfileKey]]
  }

  /**
   After the update the file has exactly its old keys and the four fixed ones;
   the fixed keys hold the fixed values and every other key keeps its value.
   */
  lemma UpdateWritesFixedKeepsRest(tags: Option<TagMap>)
    ensures var before := if tags.Some? then tags.value else map[];
      var r := UpdateMetadata(tags);
      && r.Keys == before.Keys + FixedKeys
      && (forall k :: k in FixedKeys ==> r[k] == FixedTags()[k])
      && (forall k :: k in before && k !in FixedKeys ==> r[k] == before[k])
  {
  }

  /** The update is the union of the old mapping with the fixed entries, the fixed entries winning on conflict. */
  lemma UpdateIsUnion(tags: Option<TagMap>)
    ensures UpdateMetadata(tags) == (if tags.Some? then tags.value else map[]) + FixedTags()
  {
  }

  /** A missing tag mapping behaves like an empty one: the result is exactly the fixed entries. */
  lemma MissingTagsAreEmpty()
    ensures UpdateMetadata(None) == UpdateMetadata(Some(map[])) == FixedTags()
  {
  }

  /** Tagging an already tagged file changes nothing. */
  lemma UpdateIdempotent(tags: Option<TagMap>)
    ensures UpdateMetadata(Some(UpdateMetadata(tags))) == UpdateMetadata(tags)
  {
  }
}
