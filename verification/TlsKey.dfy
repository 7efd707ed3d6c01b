/**
 The ciphertext key that correlates a TLS record seen at the BIO with the same record seen at
 the socket (bpf/common/tls_record.h; record layout of section 5.1 of RFC 8446).
 */
module TlsKey {
  import opened Words

  const HDR_LEN: nat := 5
  const PREFIX_MAX: nat := 32
  const KEY_MIN_LEN: nat := 21

  predicate PlausibleStart(hdr: seq<byte>, avail: nat)
    requires |hdr| >= HDR_LEN
  {
    avail >= HDR_LEN && 0x14 <= hdr[0] <= 0x17 && hdr[1] == 0x03
  }

  function FragmentLen(hdr: seq<byte>): (n: nat)
    requires |hdr| >= HDR_LEN
    ensures n < 0x1_0000
  {
    var hi: nat := hdr[3];
    hi * 0x100 + hdr[4]
  }

  /** How many leading bytes form a stable key; 0 for no key. */
  function KeyLen(hdr: seq<byte>, avail: nat): (n: nat)
    requires |hdr| >= HDR_LEN
    ensures n == 0 || KEY_MIN_LEN <= n <= PREFIX_MAX
  {
    if !PlausibleStart(hdr, avail) || FragmentLen(hdr) == 0 then 0
    else
      var n := Min(HDR_LEN + FragmentLen(hdr), avail);
      if n < KEY_MIN_LEN then 0 else Min(n, PREFIX_MAX)
  }

  class PrefixKey {
    var bytes: seq<byte>
    var len: nat

    /** Keys are compared by value, all 32 bytes and the length. */
    ghost predicate IsKeyOf(prefix: seq<byte>)
      reads this
    {
      |prefix| <= PREFIX_MAX && len == |prefix| && bytes == prefix + Repeat(0, PREFIX_MAX - |prefix|)
    }
  }

  /** The derived key length of a transfer of `avail` bytes of which the first |src| were copied. */
  function Derived(src: seq<byte>, avail: nat): (n: nat)
    ensures n <= |src| && (n == 0 || KEY_MIN_LEN <= n <= PREFIX_MAX)
  {
    if |src| < HDR_LEN then 0
    else if KeyLen(src, avail) > |src| then 0 else KeyLen(src, avail)
  }

  method TlsPrefixKeyFromBuf(key: PrefixKey, src: seq<byte>, avail: nat) returns (keyLen: nat)
    modifies key
    ensures keyLen == Derived(src, avail)
    ensures key.IsKeyOf(src[..keyLen])
  {
    key.bytes, key.len := Repeat(0, PREFIX_MAX), 0;
    if |src| < HDR_LEN {
      return 0;
    }
    keyLen := KeyLen(src, avail);
    if keyLen == 0 || keyLen > |src| {
      return 0;
    }
    var i := 0;
    while i < PREFIX_MAX
      invariant 0 <= i <= PREFIX_MAX && |key.bytes| == PREFIX_MAX && key.len == 0
      invariant forall k :: 0 <= k < i ==> key.bytes[k] == if k < keyLen then src[k] else 0
    {
      var idx := if i < keyLen then i else keyLen - 1;
      key.bytes := key.bytes[i := if i < keyLen then src[idx] else 0];
      i := i + 1;
    }
    key.len := keyLen;
  }

  /** A complete record: the header announces exactly the bytes behind it. */
  predicate IsRecord(record: seq<byte>) {
    |record| >= HDR_LEN && |record| == HDR_LEN + FragmentLen(record)
  }

  /** A record is keyed exactly when it is plausible and long enough to carry entropy. */
  lemma RecordIsKeyed(record: seq<byte>)
    requires IsRecord(record)
    ensures Derived(record, |record|) > 0 <==> PlausibleStart(record, |record|) && |record| >= KEY_MIN_LEN
    ensures Derived(record, |record|) > 0 ==> Derived(record, |record|) == Min(|record|, PREFIX_MAX)
  {
  }

  /**
   Both observation points derive the same key: the record alone, and any copy that reaches at
   least the key width of a transfer with more bytes coalesced behind it.
   */
  lemma CoalescingKeepsKey(record: seq<byte>, more: seq<byte>, copied: nat, copied': nat)
    requires IsRecord(record)
    requires Min(|record|, PREFIX_MAX) <= copied <= |record|
    requires Min(|record|, PREFIX_MAX) <= copied' <= |record + more|
    ensures var a, b := record[..copied], (record + more)[..copied'];
            && Derived(a, |record|) == Derived(b, |record + more|)
            && a[..Derived(a, |record|)] == b[..Derived(b, |record + more|)]
  {
    var a, b := record[..copied], (record + more)[..copied'];
    assert forall i :: 0 <= i < copied && i < copied' ==> a[i] == record[i] == b[i];
  }

  /** Two keys are equal exactly when the prefixes they were derived from are. */
  lemma KeysEqualIffPrefixesEqual(p: seq<byte>, q: seq<byte>)
    requires |p| <= PREFIX_MAX && |q| <= PREFIX_MAX
    ensures (p + Repeat(0, PREFIX_MAX - |p|) == q + Repeat(0, PREFIX_MAX - |q|) && |p| == |q|) <==> p == q
  {
    if |p| == |q| && p + Repeat(0, PREFIX_MAX - |p|) == q + Repeat(0, PREFIX_MAX - |q|) {
      assert p == (p + Repeat(0, PREFIX_MAX - |p|))[..|p|];
      assert q == (q + Repeat(0, PREFIX_MAX - |q|))[..|q|];
    }
  }
}
