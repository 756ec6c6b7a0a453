/** internal/auth/secretbox.go: the keyring that protects stored secrets, and its rotation
    (cmd/mossward/main.go, internal/store/identity_rotation.go), which a crash may stop
    between any two durable steps. */
module IdentityKeyring {
  import opened GoStrings

  const IDENTITY_KEY_BYTES := 32
  const KEY_ID_LENGTH := 16
  const NONCE_SIZE := 12
  const ENVELOPE := "MWK1"
  const HEADER_SIZE := |ENVELOPE| + KEY_ID_LENGTH

  /** The primitives: the identifier of a key, and authenticated encryption. Arguments are
      the key, the nonce, the plaintext or sealed text, and the associated data. */
  datatype Crypto = Crypto(
    keyId: string -> string,
    seal: (string, string, string, string) -> string,
    open: (string, string, string, string) -> Option<string>)

  /** Identifiers have 16 hexadecimal digits, and opening undoes sealing. */
  ghost predicate Faithful(c: Crypto) {
    && (forall key :: |c.keyId(key)| == KEY_ID_LENGTH)
    && (forall key, nonce, plain, data :: c.open(key, nonce, c.seal(key, nonce, plain, data), data) == Some(plain))
  }

  /** Authentication: what one key sealed with some data opens with no other key or data. */
  ghost predicate Authentic(c: Crypto) {
    forall key, key', nonce, plain, data, data' :: (key, data) != (key', data') ==>
      c.open(key', nonce, c.seal(key, nonce, plain, data), data') == None
  }

  datatype Ring = Ring(activeId: string, legacyId: string, keys: map<string, string>)

  /** The key file: a bare key of the first format, a keyring, or something else. */
  datatype KeyFile = BareKey(key: string) | Keyring(ring: Ring) | Unsupported

  /** `SecretBox`: a keyring whose keys have been checked. */
  type SecretBox = Ring

  predicate ValidRing(c: Crypto, ring: Ring) {
    && (forall id :: id in ring.keys ==> |ring.keys[id]| == IDENTITY_KEY_BYTES && c.keyId(ring.keys[id]) == id)
    && ring.activeId in ring.keys
    && ring.legacyId in ring.keys
  }

  function BareRing(c: Crypto, key: string): Ring {
    Ring(c.keyId(key), c.keyId(key), map[c.keyId(key) := key])
  }

  /** `parseSecretBox`. */
  function ParseBox(c: Crypto, file: KeyFile): Option<SecretBox> {
    match file
    case BareKey(key) => if |key| == IDENTITY_KEY_BYTES then Some(BareRing(c, key)) else None
    case Keyring(ring) => if ValidRing(c, ring) then Some(ring) else None
    case Unsupported => None
  }

  // ----- Ciphertexts

  function Encrypt(c: Crypto, box: SecretBox, plaintext: string, nonce: string): Option<string> {
    if box.activeId !in box.keys then None
    else
      var header := ENVELOPE + box.activeId;
      Some(header + nonce + c.seal(box.keys[box.activeId], nonce, plaintext, header))
  }

  predicate HasHeader(ciphertext: string) {
    |ciphertext| >= HEADER_SIZE && ciphertext[..|ENVELOPE|] == ENVELOPE
  }

  /** `ciphertextKey`: the key identifier, the payload and the associated data. */
  function CiphertextKey(box: SecretBox, ciphertext: string): (string, string, string) {
    if HasHeader(ciphertext) then
      (ciphertext[|ENVELOPE|..HEADER_SIZE], ciphertext[HEADER_SIZE..], ciphertext[..HEADER_SIZE])
    else (box.legacyId, ciphertext, "")
  }

  function Decrypt(c: Crypto, box: SecretBox, ciphertext: string): Option<string> {
    var (id, payload, data) := CiphertextKey(box, ciphertext);
    if id !in box.keys || |payload| < NONCE_SIZE then None
    else c.open(box.keys[id], payload[..NONCE_SIZE], payload[NONCE_SIZE..], data)
  }

  lemma EnvelopeLayout(id: string, nonce: string, sealed: string)
    requires |id| == KEY_ID_LENGTH && |nonce| == NONCE_SIZE
    ensures var ciphertext := ENVELOPE + id + nonce + sealed;
      && HasHeader(ciphertext)
      && ciphertext[|ENVELOPE|..HEADER_SIZE] == id
      && ciphertext[..HEADER_SIZE] == ENVELOPE + id
      && ciphertext[HEADER_SIZE..][..NONCE_SIZE] == nonce
      && ciphertext[HEADER_SIZE..][NONCE_SIZE..] == sealed
  {
    var ciphertext := ENVELOPE + id + nonce + sealed;
    assert ciphertext[HEADER_SIZE..] == nonce + sealed;
  }

  /** What one box encrypts, every box that holds the same key decrypts. */
  lemma DecryptEncrypted(c: Crypto, box: SecretBox, other: SecretBox, plaintext: string, nonce: string)
    requires Faithful(c) && ValidRing(c, box) && |nonce| == NONCE_SIZE
    requires box.activeId in other.keys && other.keys[box.activeId] == box.keys[box.activeId]
    ensures Decrypt(c, other, Encrypt(c, box, plaintext, nonce).value) == Some(plaintext)
  {
    var header := ENVELOPE + box.activeId;
    EnvelopeLayout(box.activeId, nonce, c.seal(box.keys[box.activeId], nonce, plaintext, header));
  }

  /** The header is authenticated: in every keyring, a ciphertext stripped of its header or
      given that of another key no longer opens. */
  lemma HeaderIsBound(c: Crypto, box: SecretBox, other: SecretBox, plaintext: string, nonce: string, id: string)
    requires Faithful(c) && Authentic(c) && ValidRing(c, box) && |nonce| == NONCE_SIZE && |id| == KEY_ID_LENGTH
    ensures var payload := Encrypt(c, box, plaintext, nonce).value[HEADER_SIZE..];
      && (!HasHeader(payload) ==> Decrypt(c, other, payload) == None)
      && (id != box.activeId ==> Decrypt(c, other, ENVELOPE + id + payload) == None)
  {
    var header := ENVELOPE + box.activeId;
    var sealed := c.seal(box.keys[box.activeId], nonce, plaintext, header);
    EnvelopeLayout(box.activeId, nonce, sealed);
    EnvelopeLayout(id, nonce, sealed);
    var payload := nonce + sealed;
    assert Encrypt(c, box, plaintext, nonce).value[HEADER_SIZE..] == payload;
    assert payload[..NONCE_SIZE] == nonce && payload[NONCE_SIZE..] == sealed;
    assert ENVELOPE + id + payload == ENVELOPE + id + nonce + sealed;
    assert |header| == HEADER_SIZE && header[|ENVELOPE|..] == box.activeId && (ENVELOPE + id)[|ENVELOPE|..] == id;
    forall key, data | data != header ensures c.open(key, nonce, sealed, data) == None {
      assert (box.keys[box.activeId], header) != (key, data);
    }
  }

  /** A ciphertext of the first format, without a header, is readable with the bare key if
      it does not happen to look like an envelope. */
  lemma LegacyReadable(c: Crypto, key: string, plaintext: string, nonce: string)
    requires Faithful(c) && |nonce| == NONCE_SIZE
    ensures var ciphertext := nonce + c.seal(key, nonce, plaintext, "");
      !HasHeader(ciphertext) ==> Decrypt(c, BareRing(c, key), ciphertext) == Some(plaintext)
  {
    var sealed := c.seal(key, nonce, plaintext, "");
    assert (nonce + sealed)[..NONCE_SIZE] == nonce && (nonce + sealed)[NONCE_SIZE..] == sealed;
  }

  // ----- The rotation as the stores it leaves behind

  /** Everything durable: the key file, its recovery copies and the encrypted columns. */
  datatype Store = Store(file: KeyFile, recovery: map<string, KeyFile>, rows: map<string, string>)

  function LoadRing(c: Crypto, file: KeyFile): Option<Ring> {
    match file
    case BareKey(key) => if |key| == IDENTITY_KEY_BYTES then Some(BareRing(c, key)) else None
    case Keyring(ring) => if ring.keys == map[] then None else Some(ring)
    case Unsupported => None
  }

  function WithPending(c: Crypto, ring: Ring, newKey: string): Ring {
    Ring(c.keyId(newKey), ring.legacyId, ring.keys[c.keyId(newKey) := newKey])
  }

  /** A recovery copy that exists is left alone. */
  function Preserved(recovery: map<string, KeyFile>, id: string, file: KeyFile): map<string, KeyFile> {
    if id in recovery then recovery else recovery[id := file]
  }

  /** `BeginIdentityKeyRotation`: a keyring that already has a pending key is left alone. */
  function BeginStores(c: Crypto, s: Store, newKey: string): seq<Store> {
    var ring := LoadRing(c, s.file);
    if ring.None? || |ring.value.keys| != 1 then []
    else
      var saved := s.(recovery := Preserved(s.recovery, c.keyId(newKey), s.file));
      [saved, saved.(file := Keyring(WithPending(c, ring.value, newKey)))]
  }

  function BeginBox(c: Crypto, s: Store, newKey: string): Option<SecretBox> {
    var ring := LoadRing(c, s.file);
    if ring.None? then None
    else ParseBox(c, Keyring(if |ring.value.keys| == 1 then WithPending(c, ring.value, newKey) else ring.value))
  }

  predicate AllDecrypt(c: Crypto, box: SecretBox, rows: map<string, string>) {
    forall row :: row in rows ==> Decrypt(c, box, rows[row]).Some?
  }

  /** Every row decrypted and encrypted again, in one transaction. */
  function Reencrypted(c: Crypto, box: SecretBox, rows: map<string, string>, nonces: string -> string): map<string, string>
    requires AllDecrypt(c, box, rows) && box.activeId in box.keys
  {
    map row | row in rows :: Encrypt(c, box, Decrypt(c, box, rows[row]).value, nonces(row)).value
  }

  function Reencrypt(c: Crypto, s: Store, box: SecretBox, nonces: string -> string): Store
    requires AllDecrypt(c, box, s.rows) && box.activeId in box.keys
  {
    s.(rows := Reencrypted(c, box, s.rows, nonces))
  }

  function FinalRing(box: SecretBox): Ring
    requires box.activeId in box.keys
  {
    Ring(box.activeId, box.activeId, map[box.activeId := box.keys[box.activeId]])
  }

  function LastStore(s: Store, stores: seq<Store>): Store {
    if stores == [] then s else stores[|stores| - 1]
  }

  /** The whole command: begin, re-encrypt, finalize. */
  function RotateStores(c: Crypto, s: Store, newKey: string, nonces: string -> string): seq<Store> {
    var begun, box := BeginStores(c, s, newKey), BeginBox(c, s, newKey);
    if box.None? || !ValidRing(c, box.value) || !AllDecrypt(c, box.value, s.rows) then begun
    else
      var reencrypted := Reencrypt(c, LastStore(s, begun), box.value, nonces);
      begun + [reencrypted, reencrypted.(file := Keyring(FinalRing(box.value)))]
  }

  /** The store after the first `n` durable steps. */
  function Reached(s: Store, stores: seq<Store>, n: nat): Store
    requires n <= |stores|
  {
    if n == 0 then s else stores[n - 1]
  }

  // ----- Every stored secret stays readable

  /** The key file on disk decrypts every row to its secret. */
  ghost predicate Readable(c: Crypto, s: Store, secrets: map<string, string>) {
    var box := ParseBox(c, s.file);
    && box.Some?
    && s.rows.Keys == secrets.Keys
    && forall row :: row in s.rows ==> Decrypt(c, box.value, s.rows[row]) == Some(secrets[row])
  }

  /** The random key is new: if it will be used, its identifier is not in the keyring yet. */
  predicate FreshFor(c: Crypto, file: KeyFile, newKey: string) {
    && |newKey| == IDENTITY_KEY_BYTES
    && var ring := LoadRing(c, file); ring.Some? && |ring.value.keys| == 1 ==> c.keyId(newKey) !in ring.value.keys
  }

  /** A larger keyring with the same legacy key reads whatever the smaller one reads. */
  lemma LargerRingReads(c: Crypto, small: SecretBox, large: SecretBox, ciphertext: string)
    requires large.legacyId == small.legacyId
    requires forall id :: id in small.keys ==> id in large.keys && large.keys[id] == small.keys[id]
    requires Decrypt(c, small, ciphertext).Some?
    ensures Decrypt(c, large, ciphertext) == Decrypt(c, small, ciphertext)
  {
  }

  lemma ParsedRing(c: Crypto, file: KeyFile)
    requires ParseBox(c, file).Some?
    ensures LoadRing(c, file) == ParseBox(c, file) && ValidRing(c, ParseBox(c, file).value)
  {
  }

  /** The box a rotation works with: valid, and it reads what the key file read. */
  lemma BeginKeepsReading(c: Crypto, s: Store, secrets: map<string, string>, newKey: string)
    requires Readable(c, s, secrets) && FreshFor(c, s.file, newKey)
    ensures var box := BeginBox(c, s, newKey);
      && box.Some? && ValidRing(c, box.value)
      && ParseBox(c, LastStore(s, BeginStores(c, s, newKey)).file) == box
      && forall row :: row in s.rows ==> Decrypt(c, box.value, s.rows[row]) == Some(secrets[row])
  {
    hide Decrypt;
    ParsedRing(c, s.file);
    var ring, box := ParseBox(c, s.file).value, BeginBox(c, s, newKey);
    forall row | row in s.rows
      ensures Decrypt(c, box.value, s.rows[row]) == Some(secrets[row])
    {
      LargerRingReads(c, ring, box.value, s.rows[row]);
    }
  }

  lemma ReencryptedReads(c: Crypto, box: SecretBox, rows: map<string, string>, secrets: map<string, string>, nonces: string -> string)
    requires Faithful(c) && ValidRing(c, box) && forall row :: |nonces(row)| == NONCE_SIZE
    requires rows.Keys == secrets.Keys && forall row :: row in rows ==> Decrypt(c, box, rows[row]) == Some(secrets[row])
    ensures var after := Reencrypted(c, box, rows, nonces);
      forall row :: row in after ==>
        Decrypt(c, box, after[row]) == Some(secrets[row]) && Decrypt(c, FinalRing(box), after[row]) == Some(secrets[row])
  {
    hide Decrypt, Encrypt, Faithful;
    var after := Reencrypted(c, box, rows, nonces);
    forall row | row in after
      ensures Decrypt(c, box, after[row]) == Some(secrets[row])
      ensures Decrypt(c, FinalRing(box), after[row]) == Some(secrets[row])
    {
      DecryptEncrypted(c, box, box, secrets[row], nonces(row));
      DecryptEncrypted(c, box, FinalRing(box), secrets[row], nonces(row));
    }
  }

  lemma BegunReadable(c: Crypto, s: Store, secrets: map<string, string>, newKey: string)
    requires Readable(c, s, secrets) && FreshFor(c, s.file, newKey)
    ensures var begun := BeginStores(c, s, newKey);
      forall n :: 0 <= n <= |begun| ==> Readable(c, Reached(s, begun, n), secrets)
  {
    hide Decrypt, WithPending;
    BeginKeepsReading(c, s, secrets, newKey);
  }

  lemma FinishReadable(c: Crypto, s: Store, box: SecretBox, secrets: map<string, string>, nonces: string -> string)
    requires Faithful(c) && ValidRing(c, box) && ParseBox(c, s.file) == Some(box)
    requires Readable(c, s, secrets) && forall row :: |nonces(row)| == NONCE_SIZE
    ensures AllDecrypt(c, box, s.rows)
    ensures var after := Reencrypt(c, s, box, nonces);
      Readable(c, after, secrets) && Readable(c, after.(file := Keyring(FinalRing(box))), secrets)
  {
    hide Decrypt, Encrypt, Faithful;
    ReencryptedReads(c, box, s.rows, secrets, nonces);
    assert ValidRing(c, FinalRing(box));
  }

  /** At every crash point of a rotation the key file on disk reads every stored secret; a
      rotation that completes leaves the active key alone in the keyring. */
  lemma RotationKeepsSecrets(c: Crypto, s: Store, secrets: map<string, string>, newKey: string, nonces: string -> string)
    requires Faithful(c) && Readable(c, s, secrets) && FreshFor(c, s.file, newKey)
    requires forall row :: |nonces(row)| == NONCE_SIZE
    ensures var stores, box := RotateStores(c, s, newKey, nonces), BeginBox(c, s, newKey);
      && (forall n :: 0 <= n <= |stores| ==> Readable(c, Reached(s, stores, n), secrets))
      && box.Some? && ValidRing(c, box.value)
      && LastStore(s, stores).file == Keyring(FinalRing(box.value))
  {
    hide Decrypt, Faithful, Readable, ParseBox, LoadRing, WithPending, Reencrypted, FinalRing;
    BeginKeepsReading(c, s, secrets, newKey);
    BegunReadable(c, s, secrets, newKey);
    var begun, box, stores := BeginStores(c, s, newKey), BeginBox(c, s, newKey).value, RotateStores(c, s, newKey, nonces);
    var base := LastStore(s, begun);
    assert base == Reached(s, begun, |begun|);
    FinishReadable(c, base, box, secrets, nonces);
    assert stores == begun + [Reencrypt(c, base, box, nonces),
                              Reencrypt(c, base, box, nonces).(file := Keyring(FinalRing(box)))];
    forall n | 0 <= n <= |stores|
      ensures Readable(c, Reached(s, stores, n), secrets)
    {
      if n <= |begun| {
        assert Reached(s, stores, n) == Reached(s, begun, n);
      }
    }
  }

  /** A rotation that starts from a single key and completes replaces it by the new one. */
  lemma RotationInstallsNewKey(c: Crypto, s: Store, secrets: map<string, string>, newKey: string, nonces: string -> string)
    requires Faithful(c) && Readable(c, s, secrets) && FreshFor(c, s.file, newKey)
    requires |ParseBox(c, s.file).value.keys| == 1 && forall row :: |nonces(row)| == NONCE_SIZE
    ensures var id := c.keyId(newKey);
      LastStore(s, RotateStores(c, s, newKey, nonces)).file == Keyring(Ring(id, id, map[id := newKey]))
  {
    hide Decrypt, Faithful, RotateStores;
    ParsedRing(c, s.file);
    RotationKeepsSecrets(c, s, secrets, newKey, nonces);
  }

  // ----- Every run

  /** A rotation that may crash after some of its durable steps, or the server storing a
      secret with the keyring it finds on disk. */
  datatype Event =
    | Rotate(newKey: string, nonces: string -> string, crash: Option<nat>)
    | Put(row: string, plaintext: string, nonce: string)

  function Crashed(s: Store, stores: seq<Store>, crash: Option<nat>): Store {
    Reached(s, stores, if crash.Some? && crash.value <= |stores| then crash.value else |stores|)
  }

  function Step(c: Crypto, s: Store, e: Event): Store {
    match e
    case Rotate(newKey, nonces, crash) =>
      Crashed(s, RotateStores(c, s, newKey, nonces), crash)
    case Put(row, plaintext, nonce) =>
      var box := ParseBox(c, s.file);
      if box.None? || box.value.activeId !in box.value.keys then s
      else s.(rows := s.rows[row := Encrypt(c, box.value, plaintext, nonce).value])
  }

  function Secrets(secrets: map<string, string>, e: Event): map<string, string> {
    if e.Put? then secrets[e.row := e.plaintext] else secrets
  }

  /** The randomness of an event has the right sizes, and a new key is new. */
  ghost predicate Random(c: Crypto, s: Store, e: Event) {
    match e
    case Rotate(newKey, nonces, _) => FreshFor(c, s.file, newKey) && forall row :: |nonces(row)| == NONCE_SIZE
    case Put(_, _, nonce) => |nonce| == NONCE_SIZE
  }

  lemma PutKeepsSecrets(c: Crypto, s: Store, secrets: map<string, string>, row: string, plaintext: string, nonce: string)
    requires Faithful(c) && Readable(c, s, secrets) && |nonce| == NONCE_SIZE
    ensures Readable(c, Step(c, s, Put(row, plaintext, nonce)), secrets[row := plaintext])
  {
    hide Decrypt, Encrypt, Faithful;
    var box := ParseBox(c, s.file).value;
    ParsedRing(c, s.file);
    DecryptEncrypted(c, box, box, plaintext, nonce);
  }

  lemma StepKeepsSecrets(c: Crypto, s: Store, secrets: map<string, string>, e: Event)
    requires Faithful(c) && Readable(c, s, secrets) && Random(c, s, e)
    ensures Readable(c, Step(c, s, e), Secrets(secrets, e))
  {
    hide Faithful, Readable, RotateStores, ParseBox, Encrypt, FreshFor, LastStore, ValidRing, FinalRing, BeginBox;
    match e
    case Rotate(newKey, nonces, crash) =>
      RotationKeepsSecrets(c, s, secrets, newKey, nonces);
    case Put(row, plaintext, nonce) =>
      PutKeepsSecrets(c, s, secrets, row, plaintext, nonce);
  }

  ghost predicate RandomRun(c: Crypto, s: Store, events: seq<Event>)
    decreases |events|
  {
    events == [] || (Random(c, s, events[0]) && RandomRun(c, Step(c, s, events[0]), events[1..]))
  }

  function Run(c: Crypto, s: Store, events: seq<Event>): Store
    decreases |events|
  {
    if events == [] then s else Run(c, Step(c, s, events[0]), events[1..])
  }

  function AllSecrets(secrets: map<string, string>, events: seq<Event>): map<string, string>
    decreases |events|
  {
    if events == [] then secrets else AllSecrets(Secrets(secrets, events[0]), events[1..])
  }

  /** Over every run of rotations, crashed or not, and stored secrets, the key file on disk
      reads every secret ever stored. */
  lemma {:induction false} NoSecretLost(c: Crypto, s: Store, secrets: map<string, string>, events: seq<Event>)
    requires Faithful(c) && Readable(c, s, secrets) && RandomRun(c, s, events)
    ensures Readable(c, Run(c, s, events), AllSecrets(secrets, events))
    decreases |events|
  {
    hide Faithful, Readable, Step, Secrets, Random;
    if events == [] {
    } else {
      StepKeepsSecrets(c, s, secrets, events[0]);
      NoSecretLost(c, Step(c, s, events[0]), Secrets(secrets, events[0]), events[1..]);
    }
  }

  // ----- Resuming

  /** A rotation to the key was begun and not finished: two keys, the new one active. */
  predicate Pending(c: Crypto, s: Store, key: string) {
    && s.file.Keyring? && |s.file.ring.keys| == 2 && ParseBox(c, s.file) == Some(s.file.ring)
    && s.file.ring.activeId == c.keyId(key) && s.file.ring.keys[c.keyId(key)] == key
  }

  /** A begun rotation has exactly two keys, the new one active. */
  lemma PendingRing(c: Crypto, s: Store, secrets: map<string, string>, newKey: string)
    requires Readable(c, s, secrets) && FreshFor(c, s.file, newKey) && |ParseBox(c, s.file).value.keys| == 1
    ensures |BeginStores(c, s, newKey)| == 2 && var file := BeginStores(c, s, newKey)[1].file;
      && file.Keyring? && |file.ring.keys| == 2 && ParseBox(c, file) == Some(file.ring)
      && file.ring.activeId == c.keyId(newKey) && file.ring.keys[c.keyId(newKey)] == newKey
  {
    hide Decrypt;
    BeginKeepsReading(c, s, secrets, newKey);
    ParsedRing(c, s.file);
    var ring := LoadRing(c, s.file).value;
    assert WithPending(c, ring, newKey).keys.Keys == ring.keys.Keys + {c.keyId(newKey)};
  }

  /** Wherever a rotation from a single key crashes, the key file is the old one, or the
      rotation is pending. */
  lemma CrashedIsPending(c: Crypto, s: Store, secrets: map<string, string>, key: string, nonces: string -> string, n: nat)
    requires Faithful(c) && Readable(c, s, secrets) && FreshFor(c, s.file, key)
    requires |ParseBox(c, s.file).value.keys| == 1 && forall row :: |nonces(row)| == NONCE_SIZE
    requires n < |RotateStores(c, s, key, nonces)|
    ensures var crashed := Reached(s, RotateStores(c, s, key, nonces), n); crashed.file == s.file || Pending(c, crashed, key)
  {
    hide Decrypt, Faithful, Readable, Reencrypted, ParseBox, LoadRing, WithPending;
    PendingRing(c, s, secrets, key);
    RotationKeepsSecrets(c, s, secrets, key, nonces);
    var stores, begun := RotateStores(c, s, key, nonces), BeginStores(c, s, key);
    assert n >= 2 ==> Reached(s, stores, n).file == begun[1].file;
    assert n == 1 ==> Reached(s, stores, n) == begun[0];
  }

  lemma RecoveryReached(c: Crypto, s: Store, key: string, nonces: string -> string, n: nat)
    requires n <= |RotateStores(c, s, key, nonces)|
    ensures var reached := Reached(s, RotateStores(c, s, key, nonces), n);
      reached.recovery == if n == 0 || BeginStores(c, s, key) == [] then s.recovery
                          else Preserved(s.recovery, c.keyId(key), s.file)
  {
    hide Decrypt, Reencrypted, LoadRing, WithPending, Preserved, BeginBox, FinalRing, ValidRing;
  }

  /** Before the key file changes, a copy of it is kept under the new key's name; it stays, it
      replaces no other copy, and it reads every secret as it was stored then. */
  lemma RecoveryCopyStays(c: Crypto, s: Store, secrets: map<string, string>, key: string, nonces: string -> string, n: nat)
    requires Faithful(c) && Readable(c, s, secrets) && FreshFor(c, s.file, key)
    requires n <= |RotateStores(c, s, key, nonces)| && forall row :: |nonces(row)| == NONCE_SIZE
    ensures var reached, id := Reached(s, RotateStores(c, s, key, nonces), n), c.keyId(key);
      && (forall other :: other in s.recovery ==> other in reached.recovery && reached.recovery[other] == s.recovery[other])
      && (|ParseBox(c, s.file).value.keys| == 1 && reached.file != s.file && id !in s.recovery ==>
            && id in reached.recovery && reached.recovery[id] == s.file
            && Readable(c, Store(reached.recovery[id], reached.recovery, s.rows), secrets))
  {
    hide Decrypt, Faithful, RotateStores, BeginStores, ParseBox;
    RecoveryReached(c, s, key, nonces, n);
    if |ParseBox(c, s.file).value.keys| == 1 {
      PendingRing(c, s, secrets, key);
    }
  }

  /** A rotation resumed from there writes its rows and then drops the old key; the key it
      draws plays no part. */
  lemma ResumedStores(c: Crypto, s: Store, secrets: map<string, string>, key: string, drawn: string, nonces: string -> string)
    requires Readable(c, s, secrets) && Pending(c, s, key)
    ensures var stores := RotateStores(c, s, drawn, nonces);
      && |stores| == 2 && stores[0].file == s.file
      && stores[1].file == Keyring(Ring(c.keyId(key), c.keyId(key), map[c.keyId(key) := key]))
  {
    hide Decrypt, Reencrypted;
    ParsedRing(c, s.file);
  }

  /** The event is a stored secret, or a rotation interrupted before it drops a key. */
  ghost predicate Interrupted(e: Event) {
    match e
    case Rotate(newKey, nonces, crash) =>
      |newKey| == IDENTITY_KEY_BYTES && (forall row :: |nonces(row)| == NONCE_SIZE) && crash.Some? && crash.value <= 1
    case Put(_, _, nonce) => |nonce| == NONCE_SIZE
  }

  lemma PendingStep(c: Crypto, s: Store, secrets: map<string, string>, key: string, e: Event)
    requires Faithful(c) && Readable(c, s, secrets) && Pending(c, s, key) && Interrupted(e)
    ensures Readable(c, Step(c, s, e), Secrets(secrets, e)) && Pending(c, Step(c, s, e), key)
  {
    hide Faithful, Readable, RotateStores, Encrypt, Decrypt;
    StepKeepsSecrets(c, s, secrets, e);
    if e.Rotate? {
      ResumedStores(c, s, secrets, key, e.newKey, e.nonces);
    }
  }

  lemma {:induction false} PendingRun(c: Crypto, s: Store, secrets: map<string, string>, key: string, events: seq<Event>)
    requires Faithful(c) && Readable(c, s, secrets) && Pending(c, s, key)
    requires forall i :: 0 <= i < |events| ==> Interrupted(events[i])
    ensures Readable(c, Run(c, s, events), AllSecrets(secrets, events)) && Pending(c, Run(c, s, events), key)
    decreases |events|
  {
    hide Faithful, Readable, Pending, Step, Secrets, Interrupted;
    if events == [] {
    } else {
      PendingStep(c, s, secrets, key, events[0]);
      PendingRun(c, Step(c, s, events[0]), Secrets(secrets, events[0]), key, events[1..]);
    }
  }

  /** Once a new key is on disk, any number of interrupted rotations and stored secrets, and
      then one rotation that completes, end with that key alone, whatever keys are drawn and
      whatever nonces are used; every secret stays readable. */
  lemma ResumeKeepsPendingKey(c: Crypto, s: Store, secrets: map<string, string>, key: string, events: seq<Event>,
                              drawn: string, nonces: string -> string)
    requires Faithful(c) && Readable(c, s, secrets) && Pending(c, s, key)
    requires forall i :: 0 <= i < |events| ==> Interrupted(events[i])
    requires |drawn| == IDENTITY_KEY_BYTES && forall row :: |nonces(row)| == NONCE_SIZE
    ensures var id, last := c.keyId(key), Step(c, Run(c, s, events), Rotate(drawn, nonces, None));
      last.file == Keyring(Ring(id, id, map[id := key])) && Readable(c, last, AllSecrets(secrets, events))
  {
    hide Faithful, Readable, Run, AllSecrets, Interrupted, RotateStores, ParseBox;
    PendingRun(c, s, secrets, key, events);
    ResumedStores(c, Run(c, s, events), AllSecrets(secrets, events), key, drawn, nonces);
    StepKeepsSecrets(c, Run(c, s, events), AllSecrets(secrets, events), Rotate(drawn, nonces, None));
  }

  // ----- The rotation as the command performs it

  lemma EncryptSucceeds(c: Crypto, box: SecretBox, plaintext: string, nonce: string)
    requires box.activeId in box.keys
    ensures Encrypt(c, box, plaintext, nonce).Some?
  {
  }

  /** The durable state; `writes` lists every store since the beginning. */
  class IdentityStore {
    const crypto: Crypto
    var store: Store
    ghost var writes: seq<Store>

    constructor (crypto: Crypto, store: Store)
      ensures this.crypto == crypto && this.store == store && writes == []
    {
      this.crypto, this.store, writes := crypto, store, [];
    }

    method Write(s: Store)
      modifies this
      ensures store == s && writes == old(writes) + [s]
    {
      store, writes := s, writes + [s];
    }

    method BeginRotation(newKey: string) returns (box: Option<SecretBox>)
      modifies this
      ensures box == BeginBox(crypto, old(store), newKey)
      ensures writes == old(writes) + BeginStores(crypto, old(store), newKey)
      ensures store == LastStore(old(store), BeginStores(crypto, old(store), newKey))
    {
      var loaded := LoadRing(crypto, store.file);
      if loaded.None? {
        return None;
      }
      var ring := loaded.value;
      if |ring.keys| == 1 {
        ring := WithPending(crypto, ring, newKey);
        Write(store.(recovery := Preserved(store.recovery, ring.activeId, store.file)));
        Write(store.(file := Keyring(ring)));
      }
      return ParseBox(crypto, Keyring(ring));
    }

    /** One transaction over all rows, in any order; a row that does not decrypt aborts it. */
    method RotateCiphertexts(box: SecretBox, nonces: string -> string) returns (ok: bool)
      requires box.activeId in box.keys
      modifies this
      ensures ok == AllDecrypt(crypto, box, old(store).rows)
      ensures store == if ok then Reencrypt(crypto, old(store), box, nonces) else old(store)
      ensures writes == if ok then old(writes) + [store] else old(writes)
    {
      hide Decrypt, Encrypt;
      var records, rows := store.rows.Keys, store.rows;
      while records != {}
        invariant records <= store.rows.Keys == rows.Keys
        invariant store == old(store) && writes == old(writes)
        invariant forall row :: row in records ==> rows[row] == store.rows[row]
        invariant forall row :: row in rows && row !in records ==> Decrypt(crypto, box, store.rows[row]).Some?
        invariant forall row :: row in rows && row !in records ==>
          Some(rows[row]) == Encrypt(crypto, box, Decrypt(crypto, box, store.rows[row]).value, nonces(row))
        decreases |records|
      {
        var row :| row in records;
        var plaintext := Decrypt(crypto, box, rows[row]);
        if plaintext.None? {
          return false;
        }
        var ciphertext := Encrypt(crypto, box, plaintext.value, nonces(row));
        EncryptSucceeds(crypto, box, plaintext.value, nonces(row));
        rows := rows[row := ciphertext.value];
        records := records - {row};
      }
      assert rows == Reencrypted(crypto, box, store.rows, nonces);
      Write(store.(rows := rows));
      return true;
    }

    /** Keeps the encoded active key of the keyring on disk and drops the others. */
    method FinalizeRotation(box: SecretBox) returns (ok: bool)
      requires store.file == Keyring(box)
      modifies this
      ensures ok == (box.activeId in box.keys)
      ensures store == if ok then old(store).(file := Keyring(FinalRing(box))) else old(store)
      ensures writes == if ok then old(writes) + [store] else old(writes)
    {
      if box.activeId !in box.keys {
        return false;
      }
      var encoded := store.file.ring.keys[box.activeId];
      Write(store.(file := Keyring(Ring(box.activeId, box.activeId, map[box.activeId := encoded]))));
      return true;
    }

    /** `runIdentityKeyCommand` after its backup. */
    method RotateIdentityKey(newKey: string, nonces: string -> string) returns (ok: bool)
      modifies this
      ensures writes == old(writes) + RotateStores(crypto, old(store), newKey, nonces)
      ensures store == LastStore(old(store), RotateStores(crypto, old(store), newKey, nonces))
      ensures var box := BeginBox(crypto, old(store), newKey);
        && (ok <==> box.Some? && ValidRing(crypto, box.value) && AllDecrypt(crypto, box.value, old(store).rows))
        && (ok ==> store.file == Keyring(FinalRing(box.value)))
    {
      hide Decrypt, AllDecrypt, Reencrypted, FinalRing;
      var box := BeginRotation(newKey);
      if box.None? {
        return false;
      }
      ok := RotateCiphertexts(box.value, nonces);
      if !ok {
        return;
      }
      ok := FinalizeRotation(box.value);
    }
  }
}
