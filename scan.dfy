/**
 * `LockfileContentArray.Value` and `LockfileContentArray.Scan`
 * (main.go:45-66): the column codec of the `content` column. JSON encoding
 * and decoding are parameters; only the dispatch on the type of the value the
 * driver hands over is modelled.
 */
module ContentScan {
  import opened Wrappers
  import opened Records

  /** A value handed to `Scan` by the database driver. */
  datatype DriverValue =
    | Nil                      // SQL NULL
    | Bytes(bytes: seq<bv8>)   // []byte
    | Text(text: seq<bv8>)     // string, whose bytes `[]byte(v)` hands over unchanged
    | OtherType                // any other dynamic type

  /**
   * What `json.Unmarshal` leaves in the target slice, and the error it
   * returns, given the input bytes and the slice before the call.
   */
  datatype Unmarshalled = Unmarshalled(posts: seq<LockfileContent>, err: Option<string>)

  const UNSUPPORTED_TYPE := "unsupported lockfile content type"

  /** The posts and error after `Scan(value)` on a slice holding `current`. */
  function ScanOutcome(value: DriverValue, current: seq<LockfileContent>,
                       unmarshal: (seq<bv8>, seq<LockfileContent>) -> Unmarshalled): (r: Unmarshalled)
    ensures value.Nil? ==> r == Unmarshalled(current, None)
    ensures value.OtherType? ==> r == Unmarshalled(current, Some(UNSUPPORTED_TYPE))
    ensures r.posts != current ==> value.Bytes? || value.Text?
  {
    match value
    case Nil => Unmarshalled(current, None)
    case Bytes(b) => unmarshal(b, current)
    case Text(t) => unmarshal(t, current)
    case OtherType => Unmarshalled(current, Some(UNSUPPORTED_TYPE))
  }

  /** SQL NULL is no error and leaves the slice as it was. */
  lemma ScanNilIsNoOp(current: seq<LockfileContent>, unmarshal: (seq<bv8>, seq<LockfileContent>) -> Unmarshalled)
    ensures ScanOutcome(Nil, current, unmarshal) == Unmarshalled(current, None)
  {
  }

  /** A value that is neither bytes nor a string is an error and changes nothing. */
  lemma ScanRejectsOtherTypes(current: seq<LockfileContent>, unmarshal: (seq<bv8>, seq<LockfileContent>) -> Unmarshalled)
    ensures ScanOutcome(OtherType, current, unmarshal).err.Some?
    ensures ScanOutcome(OtherType, current, unmarshal).posts == current
  {
  }

  /** A string and a byte slice with the same bytes decode the same way. */
  lemma ScanTextAsBytes(b: seq<bv8>, current: seq<LockfileContent>,
                        unmarshal: (seq<bv8>, seq<LockfileContent>) -> Unmarshalled)
    ensures ScanOutcome(Text(b), current, unmarshal) == ScanOutcome(Bytes(b), current, unmarshal)
  {
  }

  /**
   * The column round-trips: if decoding inverts encoding, scanning what
   * `Value` stored, whether the driver hands it back as bytes or as a string,
   * restores exactly the posts that were written, whatever the slice held.
   */
  lemma ValueScanRoundTrip(posts: seq<LockfileContent>, current: seq<LockfileContent>, asText: bool,
                           marshal: seq<LockfileContent> -> seq<bv8>,
                           unmarshal: (seq<bv8>, seq<LockfileContent>) -> Unmarshalled)
    requires forall p, before :: unmarshal(marshal(p), before) == Unmarshalled(p, None)
    ensures var stored := marshal(posts);
            ScanOutcome(if asText then Text(stored) else Bytes(stored), current, unmarshal) == Unmarshalled(posts, None)
  {
  }

  /** The slice `Scan` writes through its `*LockfileContentArray` receiver. */
  class LockfileContentArray {
    var posts: seq<LockfileContent>

    constructor (posts: seq<LockfileContent>)
      ensures this.posts == posts
    {
      this.posts := posts;
    }

    /**
     * `Scan`: NULL is a no-op without error, bytes and strings are decoded
     * into the slice, any other type is an error that leaves the slice alone.
     */
    method Scan(value: DriverValue, unmarshal: (seq<bv8>, seq<LockfileContent>) -> Unmarshalled)
      returns (err: Option<string>)
      modifies this
      ensures posts == ScanOutcome(value, old(posts), unmarshal).posts
      ensures err == ScanOutcome(value, old(posts), unmarshal).err
      ensures value.Nil? ==> posts == old(posts) && err == None
      ensures value.OtherType? ==> posts == old(posts) && err == Some(UNSUPPORTED_TYPE)
    {
      if value.Nil? {
        return None;
      }
      match value {
        case Bytes(b) =>
          var decoded := unmarshal(b, posts);
          posts := decoded.posts;
          err := decoded.err;
        case Text(t) =>
          var decoded := unmarshal(t, posts);
          posts := decoded.posts;
          err := decoded.err;
        case OtherType =>
          err := Some(UNSUPPORTED_TYPE);
      }
    }
  }
}
