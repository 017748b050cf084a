/** Two-step key derivation with a cached master key, and the layout of encrypted text. */
module AesCache {
  import opened Common

  type Bytes = seq<byte>

  const PBKDF2_ITERATIONS := 600_000
  const PBKDF2_SALT_LENGTH := 16
  const PBKDF2_IV_LENGTH := 12
  const GCM_TAG_LENGTH := 16
  const EVP_MAX_KEY_LENGTH := 64
  const MAX_PASSWORD_LENGTH := 8192

  /** The primitives of the cryptographic library. */
  datatype Crypto = Crypto(
    hash: Bytes -> Bytes,
    pbkdf2: (Bytes, Bytes, nat, nat) -> Bytes,
    seal: (Mode, Bytes, Bytes, Bytes) -> Sealed,
    unseal: (Mode, Bytes, Bytes, Sealed) -> Option<Bytes>)

  datatype Mode = Aes256Gcm | Aes192Gcm | Aes128Gcm

  datatype Sealed = Sealed(text: Bytes, tag: Bytes)

  /** The password hash tells passwords apart, derivation gives as much as it is asked for,
      and a sealed text opens with the key and iv it was sealed with. */
  ghost predicate Lawful(c: Crypto) {
    && (forall p, q :: c.hash(p) == c.hash(q) ==> p == q)
    && (forall p, s, n, len :: |c.pbkdf2(p, s, n, len)| == len)
    && (forall m, k, iv, p :: |c.seal(m, k, iv, p).tag| == GCM_TAG_LENGTH)
    && (forall m, k, iv, p :: c.unseal(m, k, iv, c.seal(m, k, iv, p)) == Some(p))
  }

  function KeyLength(m: Mode): nat {
    match m
    case Aes256Gcm => 32
    case Aes192Gcm => 24
    case Aes128Gcm => 16
  }

  /** ENCRYPTION_AES_256_GCM, _192_ and _128_ are the modes 1 to 3; no other has a cipher. */
  function ModeOf(mode: int): Option<Mode> {
    if mode == 1 then Some(Aes256Gcm)
    else if mode == 2 then Some(Aes192Gcm)
    else if mode == 3 then Some(Aes128Gcm)
    else None
  }

  // ---------------------------------------------------------------------
  // Derivation without a cache
  // ---------------------------------------------------------------------

  datatype KeyIv = KeyIv(key: Bytes, iv: Bytes)

  function MasterKey(c: Crypto, password: Bytes, masterSalt: Bytes): Bytes {
    c.pbkdf2(password, masterSalt, PBKDF2_ITERATIONS, EVP_MAX_KEY_LENGTH)
  }

  function SessionKey(c: Crypto, master: Bytes, salt: Bytes, m: Mode): KeyIv {
    var derived := c.pbkdf2(master, salt, 1, KeyLength(m) + PBKDF2_IV_LENGTH);
    if |derived| == KeyLength(m) + PBKDF2_IV_LENGTH then KeyIv(derived[..KeyLength(m)], derived[KeyLength(m)..])
    else KeyIv([], [])
  }

  // ---------------------------------------------------------------------
  // The cache
  // ---------------------------------------------------------------------

  /** The static buffers; salt is None while no master salt is set. */
  datatype Cache = Cache(key: Bytes, hash: Bytes, cached: bool, salt: Option<Bytes>)

  /** Which of the library calls succeed, and what a failing first step leaves behind. */
  datatype Calls = Calls(digest: bool, first: bool, second: bool, left: Bytes)

  datatype Op =
    | SetSalt(masterSalt: Option<Bytes>)
    | Clear
    | Derive(password: Bytes, salt: Bytes, mode: int, calls: Calls)

  function Cleared(k: Cache): Cache {
    k.(key := [], hash := [], cached := false)
  }

  function AfterSetSalt(k: Cache, salt: Option<Bytes>): Cache {
    if salt == k.salt then k else Cleared(k).(salt := salt)
  }

  /** A derivation that gets as far as the cache. */
  predicate Starts(k: Cache, password: Bytes, mode: int, calls: Calls) {
    |password| < MAX_PASSWORD_LENGTH && k.salt.Some? && ModeOf(mode).Some? && calls.digest
  }

  predicate Hit(c: Crypto, k: Cache, password: Bytes) {
    k.cached && k.hash == c.hash(password)
  }

  function AfterDerive(c: Crypto, k: Cache, password: Bytes, mode: int, calls: Calls): Cache {
    if !Starts(k, password, mode, calls) || Hit(c, k, password) then k
    else if !calls.first then k.(key := calls.left)
    else Cache(MasterKey(c, password, k.salt.value), c.hash(password), true, k.salt)
  }

  function Derived(c: Crypto, k: Cache, password: Bytes, salt: Bytes, mode: int, calls: Calls): Option<KeyIv> {
    if !Starts(k, password, mode, calls) || (!Hit(c, k, password) && !calls.first) || !calls.second then None
    else Some(SessionKey(c, AfterDerive(c, k, password, mode, calls).key, salt, ModeOf(mode).value))
  }

  function After(c: Crypto, k: Cache, op: Op): Cache {
    match op
    case SetSalt(salt) => AfterSetSalt(k, salt)
    case Clear => Cleared(k)
    case Derive(password, _, mode, calls) => AfterDerive(c, k, password, mode, calls)
  }

  // ---------------------------------------------------------------------
  // The cache agrees with direct derivation
  // ---------------------------------------------------------------------

  /** A key that is cached is the master key of the password with the cached hash. */
  ghost predicate Sound(c: Crypto, k: Cache) {
    k.cached ==> k.salt.Some? && exists p :: c.hash(p) == k.hash && k.key == MasterKey(c, p, k.salt.value)
  }

  /** The one step that can harm the cache: a derivation for another password whose first
      step fails while a key is cached. */
  predicate Clobbers(c: Crypto, k: Cache, op: Op) {
    && op.Derive? && Starts(k, op.password, op.mode, op.calls) && !Hit(c, k, op.password)
    && !op.calls.first && k.cached && op.calls.left != k.key
  }

  /** Soundness is kept exactly by the steps that do not clobber a cached key. */
  lemma {:induction false} StepKeepsSound(c: Crypto, k: Cache, op: Op)
    requires Lawful(c) && Sound(c, k)
    ensures Sound(c, After(c, k, op)) <==> !Clobbers(c, k, op)
  {
    hide Lawful, MasterKey;
    if op.Derive? && Starts(k, op.password, op.mode, op.calls) && !Hit(c, k, op.password) {
      if op.calls.first {
        assert c.hash(op.password) == After(c, k, op).hash;
      } else if k.cached {
        var p :| c.hash(p) == k.hash && k.key == MasterKey(c, p, k.salt.value);
        OnePassword(c, k, p, op.calls.left);
      }
    }
  }

  lemma {:induction false} OnePassword(c: Crypto, k: Cache, p: Bytes, left: Bytes)
    requires Lawful(c) && k.cached && k.salt.Some? && c.hash(p) == k.hash && k.key == MasterKey(c, p, k.salt.value)
    ensures Sound(c, k.(key := left)) <==> left == k.key
  {
    hide MasterKey;
  }

  /** The three modes, with their ciphers and the lengths of their keys. */
  predicate IsMode(mode: int, m: Mode, n: nat) {
    || (mode == 1 && m == Aes256Gcm && n == 32)
    || (mode == 2 && m == Aes192Gcm && n == 24)
    || (mode == 3 && m == Aes128Gcm && n == 16)
  }

  /** The second step: n bytes of key and 12 bytes of iv, in this order, are what one iteration
      gives for the master key and the salt. */
  predicate IsSecondStep(c: Crypto, ki: KeyIv, master: Bytes, salt: Bytes, n: nat) {
    |ki.key| == n && |ki.iv| == 12 && ki.key + ki.iv == c.pbkdf2(master, salt, 1, n + 12)
  }

  lemma {:induction false} SessionKeyIsSecondStep(c: Crypto, master: Bytes, salt: Bytes, mode: int, m: Mode, n: nat)
    requires Lawful(c) && IsMode(mode, m, n)
    ensures ModeOf(mode) == Some(m) && IsSecondStep(c, SessionKey(c, master, salt, m), master, salt, n)
  {
    assert |c.pbkdf2(master, salt, 1, n + 12)| == n + 12;
  }

  lemma {:induction false} OtherModes(mode: int)
    ensures ModeOf(mode).Some? <==> 1 <= mode <= 3
  {
  }

  /** When a derivation succeeds: with a salt and a mode that is known, a password that is not
      too long, and library calls that work; the first step is not needed for the password
      whose key is cached. */
  lemma {:induction false} WhenDerived(c: Crypto, k: Cache, password: Bytes, salt: Bytes, mode: int, calls: Calls)
    ensures Derived(c, k, password, salt, mode, calls).Some? <==>
              && |password| < 8192 && k.salt.Some? && 1 <= mode <= 3 && calls.digest && calls.second
              && (calls.first || (k.cached && k.hash == c.hash(password)))
  {
    hide SessionKey;
  }

  /** With a sound cache, whatever comes out is what the two steps give: 600,000 iterations
      with the master salt, and one with the salt. */
  lemma {:induction false} DerivedIsDirect(c: Crypto, k: Cache, password: Bytes, salt: Bytes, mode: int, calls: Calls,
                                           m: Mode, n: nat)
    requires Lawful(c) && Sound(c, k) && IsMode(mode, m, n)
    ensures var r := Derived(c, k, password, salt, mode, calls);
            r.Some? ==>
              k.salt.Some? && IsSecondStep(c, r.value, c.pbkdf2(password, k.salt.value, 600_000, 64), salt, n)
  {
    hide SessionKey, IsSecondStep;
    SessionKeyIsSecondStep(c, AfterDerive(c, k, password, mode, calls).key, salt, mode, m, n);
  }

  /** What a derivation leaves in the cache: the key and the hash of its password if the first
      step was needed and worked, whatever happens then; only the leftover of a first step that
      failed; and nothing new otherwise. */
  lemma {:induction false} DeriveCaches(c: Crypto, k: Cache, password: Bytes, mode: int, calls: Calls)
    ensures var k' := AfterDerive(c, k, password, mode, calls);
            var reached := |password| < 8192 && k.salt.Some? && 1 <= mode <= 3 && calls.digest;
            var needed := reached && !(k.cached && k.hash == c.hash(password));
            && k'.salt == k.salt
            && (needed && calls.first ==>
                  k'.cached && k'.hash == c.hash(password) && k'.key == c.pbkdf2(password, k.salt.value, 600_000, 64))
            && (needed && !calls.first ==> k'.cached == k.cached && k'.hash == k.hash && k'.key == calls.left)
            && (!needed ==> k' == k)
  {
  }

  /** So a second derivation for the same password does without the first step. */
  lemma {:induction false} SecondTimeIsCached(c: Crypto, k: Cache, password: Bytes, mode: int, salt: Bytes,
                                              calls: Calls, again: Calls)
    requires Derived(c, k, password, salt, mode, calls).Some? && again.digest && again.second
    ensures Derived(c, AfterDerive(c, k, password, mode, calls), password, salt, mode, again) ==
            Derived(c, k, password, salt, mode, calls)
  {
    hide SessionKey, MasterKey;
  }

  /** The cache after a run that starts with nothing cached and no salt. */
  function Run(c: Crypto, ops: seq<Op>): Cache {
    if ops == [] then Cache([], [], false, None)
    else After(c, Run(c, ops[..|ops| - 1]), ops[|ops| - 1])
  }

  /** The salt the last of the salt changes asked for. */
  function CurrentSalt(ops: seq<Op>): Option<Bytes> {
    if ops == [] then None
    else if ops[|ops| - 1].SetSalt? then ops[|ops| - 1].masterSalt
    else CurrentSalt(ops[..|ops| - 1])
  }

  /** What a run leaves to remember, told without the cache: the salt, the password last
      derived with success since the salt was changed or the cache cleared, and what a failing
      first step has left since then. */
  datatype Memory = Memory(salt: Option<Bytes>, password: Option<Bytes>, left: Option<Bytes>)

  function Remember(m: Memory, op: Op): Memory {
    match op
    case SetSalt(salt) => if salt == m.salt then m else Memory(salt, None, None)
    case Clear => Memory(m.salt, None, None)
    case Derive(password, _, mode, calls) =>
      if || |password| >= MAX_PASSWORD_LENGTH || m.salt.None? || ModeOf(mode).None? || !calls.digest
         || m.password == Some(password)
      then m
      else if calls.first then Memory(m.salt, Some(password), None)
      else m.(left := Some(calls.left))
  }

  function Remembered(ops: seq<Op>): Memory {
    if ops == [] then Memory(None, None, None)
    else Remember(Remembered(ops[..|ops| - 1]), ops[|ops| - 1])
  }

  /** The cache the memory stands for. */
  ghost predicate Reflects(c: Crypto, k: Cache, m: Memory) {
    && k.salt == m.salt && k.cached == m.password.Some?
    && (k.cached ==>
          && m.salt.Some? && k.hash == c.hash(m.password.value)
          && k.key == if m.left.Some? then m.left.value else MasterKey(c, m.password.value, m.salt.value))
  }

  lemma {:induction false} StepReflects(c: Crypto, k: Cache, m: Memory, op: Op)
    requires Lawful(c) && Reflects(c, k, m)
    ensures Reflects(c, After(c, k, op), Remember(m, op))
  {
    hide MasterKey;
  }

  lemma {:induction false} RunReflects(c: Crypto, ops: seq<Op>)
    requires Lawful(c)
    ensures Reflects(c, Run(c, ops), Remembered(ops)) && Remembered(ops).salt == CurrentSalt(ops)
  {
    hide Lawful, After;
    if ops == [] {
    } else {
      var before := ops[..|ops| - 1];
      RunReflects(c, before);
      StepReflects(c, Run(c, before), Remembered(before), ops[|ops| - 1]);
    }
  }

  /** A first step has failed since the password was cached, and has left something that is
      not the password's master key. */
  predicate Spoiled(c: Crypto, ops: seq<Op>) {
    var m := Remembered(ops);
    m.salt.Some? && m.password.Some? && m.left.Some? && m.left.value != MasterKey(c, m.password.value, m.salt.value)
  }

  /** A run leaves a sound cache exactly if it does not end spoiled. */
  lemma {:induction false} RunIsSoundUnlessSpoiled(c: Crypto, ops: seq<Op>)
    requires Lawful(c)
    ensures Sound(c, Run(c, ops)) <==> !Spoiled(c, ops)
  {
    hide MasterKey, Run, Remembered;
    RunReflects(c, ops);
    var k, m := Run(c, ops), Remembered(ops);
    if k.cached {
      assert c.hash(m.password.value) == k.hash;
    }
  }

  /** After any run of salt changes, clears and derivations, the cached path gives the key
      and iv of the two steps under the current salt; the one exception is the cached password
      of a spoiled cache, whose second step starts from what was left behind. */
  lemma {:induction false} EveryRunDerivesDirectly(c: Crypto, ops: seq<Op>, password: Bytes, salt: Bytes, mode: int,
                                                   calls: Calls, m: Mode, n: nat)
    requires Lawful(c) && IsMode(mode, m, n)
    ensures var r, past := Derived(c, Run(c, ops), password, salt, mode, calls), Remembered(ops);
            r.Some? ==>
              && CurrentSalt(ops).Some?
              && var master := if Spoiled(c, ops) && past.password == Some(password) then past.left.value
                               else c.pbkdf2(password, CurrentSalt(ops).value, 600_000, 64);
              IsSecondStep(c, r.value, master, salt, n)
  {
    hide Run, CurrentSalt, Remembered, SessionKey, IsSecondStep;
    RunReflects(c, ops);
    SessionKeyIsSecondStep(c, AfterDerive(c, Run(c, ops), password, mode, calls).key, salt, mode, m, n);
  }

  /** After a clobbering step the next derivation for the cached password starts from what was
      left behind, not from the master key. */
  lemma {:induction false} ClobberedHitIsWrong(c: Crypto, k: Cache, op: Op, password: Bytes, salt: Bytes, mode: int,
                                               m: Mode, n: nat)
    requires Lawful(c) && Sound(c, k) && Clobbers(c, k, op) && Hit(c, k, password)
    requires |password| < MAX_PASSWORD_LENGTH && IsMode(mode, m, n)
    ensures var r := Derived(c, After(c, k, op), password, salt, mode, Calls(true, true, true, []));
            r.Some? && IsSecondStep(c, r.value, op.calls.left, salt, n)
    ensures k.salt.Some? && op.calls.left != c.pbkdf2(password, k.salt.value, 600_000, 64)
  {
    hide SessionKey, IsSecondStep;
    SessionKeyIsSecondStep(c, op.calls.left, salt, mode, m, n);
  }

  /** Two passwords, and a first step that fails for the second one: the first one then
      gets a session key made from whatever the failed call left in the buffer. */
  lemma {:induction false} StaleKeyAfterFailure(c: Crypto, p: Bytes, q: Bytes, masterSalt: Bytes, salt: Bytes,
                                                left: Bytes)
    requires Lawful(c) && p != q && |p| < MAX_PASSWORD_LENGTH && |q| < MAX_PASSWORD_LENGTH
    requires left != c.pbkdf2(p, masterSalt, 600_000, 64)
    ensures var fine := Calls(true, true, true, []);
            var failing := Calls(true, false, true, left);
            var ops := [SetSalt(Some(masterSalt)), Derive(p, salt, 1, fine), Derive(q, salt, 1, failing)];
            var r := Derived(c, Run(c, ops), p, salt, 1, fine);
            && !Sound(c, Run(c, ops)) && Spoiled(c, ops)
            && r.Some? && IsSecondStep(c, r.value, left, salt, 32)
  {
    hide SessionKey, Sound, IsSecondStep;
    var fine := Calls(true, true, true, []);
    var failing := Calls(true, false, true, left);
    var ops := [SetSalt(Some(masterSalt)), Derive(p, salt, 1, fine), Derive(q, salt, 1, failing)];
    assert ops[..1] == [ops[0]] && ops[..2] == [ops[0], ops[1]] && ops[..2][..1] == ops[..1] && ops[..1][..0] == [];
    assert Remembered(ops[..1]) == Memory(Some(masterSalt), None, None);
    assert Remembered(ops[..2]) == Memory(Some(masterSalt), Some(p), None);
    assert Remembered(ops) == Memory(Some(masterSalt), Some(p), Some(left));
    RunIsSoundUnlessSpoiled(c, ops);
    RunReflects(c, ops);
    EveryRunDerivesDirectly(c, ops, p, salt, 1, fine, Aes256Gcm, 32);
    WhenDerived(c, Run(c, ops), p, salt, 1, fine);
  }

  // ---------------------------------------------------------------------
  // The layout: salt, iv, ciphertext, tag
  // ---------------------------------------------------------------------

  /** pgagroal_encrypt with the random salt it drew, if it could draw one; the iv that is
      stored is the derived one. */
  function Encrypted(c: Crypto, k: Cache, plain: Bytes, password: Bytes, salt: Option<Bytes>, mode: int, calls: Calls,
                     seals: bool): Option<Bytes> {
    if salt.None? || !seals then None
    else
      match Derived(c, k, password, salt.value, mode, calls)
      case None => None
      case Some(ki) =>
        var sealed := c.seal(ModeOf(mode).value, ki.key, ki.iv, plain);
        Some(salt.value + ki.iv + sealed.text + sealed.tag)
  }

  /** pgagroal_decrypt: the salt and the iv are taken from the front, the tag from the end. */
  function Decrypted(c: Crypto, k: Cache, data: Bytes, password: Bytes, mode: int, calls: Calls): Option<Bytes> {
    var head := PBKDF2_SALT_LENGTH + PBKDF2_IV_LENGTH;
    if |data| < head + GCM_TAG_LENGTH then None
    else
      match Derived(c, k, password, data[..PBKDF2_SALT_LENGTH], mode, calls)
      case None => None
      case Some(ki) =>
        var body := data[head..];
        var n := |body| - GCM_TAG_LENGTH;
        c.unseal(ModeOf(mode).value, ki.key, data[PBKDF2_SALT_LENGTH..head], Sealed(body[..n], body[n..]))
  }

  /** Taking the parts out again. */
  lemma {:induction false} LayoutSplits(salt: Bytes, iv: Bytes, sealed: Sealed)
    requires |salt| == PBKDF2_SALT_LENGTH && |iv| == PBKDF2_IV_LENGTH && |sealed.tag| == GCM_TAG_LENGTH
    ensures var data := salt + iv + sealed.text + sealed.tag;
            var head := PBKDF2_SALT_LENGTH + PBKDF2_IV_LENGTH;
            && |data| >= head + GCM_TAG_LENGTH
            && data[..PBKDF2_SALT_LENGTH] == salt && data[PBKDF2_SALT_LENGTH..head] == iv
            && data[head..][..|data| - head - GCM_TAG_LENGTH] == sealed.text
            && data[head..][|data| - head - GCM_TAG_LENGTH..] == sealed.tag
  {
  }

  /** The two steps for a mode, without a cache. */
  function TwoSteps(c: Crypto, password: Bytes, masterSalt: Bytes, salt: Bytes, n: nat): Bytes {
    c.pbkdf2(c.pbkdf2(password, masterSalt, 600_000, 64), salt, 1, n + 12)
  }

  /** What is written: 16 bytes of salt, 12 bytes of iv, the ciphertext and 16 bytes of tag,
      sealed with the key and the iv of the two steps. */
  lemma {:induction false} EncryptedIs(c: Crypto, k: Cache, plain: Bytes, password: Bytes, salt: Bytes, mode: int,
                                       calls: Calls, m: Mode, n: nat)
    requires Lawful(c) && Sound(c, k) && IsMode(mode, m, n) && |salt| == 16
    ensures var r := Encrypted(c, k, plain, password, Some(salt), mode, calls, true);
            && Encrypted(c, k, plain, password, None, mode, calls, true) == None
            && Encrypted(c, k, plain, password, Some(salt), mode, calls, false) == None
            && (r.Some? <==> Derived(c, k, password, salt, mode, calls).Some?)
            && (r.Some? ==>
                  && k.salt.Some?
                  && var both, data := TwoSteps(c, password, k.salt.value, salt, n), r.value;
                  && |both| == n + 12
                  && var sealed := c.seal(m, both[..n], both[n..], plain);
                  && |data| == 44 + |sealed.text|
                  && data[..16] == salt && data[16..28] == both[n..]
                  && data[28..|data| - 16] == sealed.text && data[|data| - 16..] == sealed.tag)
  {
    hide SessionKey, Sound;
    DerivedIsDirect(c, k, password, salt, mode, calls, m, n);
    OtherModes(mode);
    ModeIs(mode, m, n);
    var r := Derived(c, k, password, salt, mode, calls);
    if r.Some? {
      var both := TwoSteps(c, password, k.salt.value, salt, n);
      assert both[..n] == r.value.key && both[n..] == r.value.iv;
      LayoutSplits(salt, r.value.iv, c.seal(m, r.value.key, r.value.iv, plain));
    }
  }

  lemma {:induction false} ModeIs(mode: int, m: Mode, n: nat)
    requires IsMode(mode, m, n)
    ensures ModeOf(mode) == Some(m) && KeyLength(m) == n
  {
  }

  /** What is read: nothing from fewer than 44 bytes; otherwise what is between the first 28 and
      the last 16 is opened with the key of the two steps for the first 16, and the iv behind
      them. */
  lemma {:induction false} DecryptedIs(c: Crypto, k: Cache, data: Bytes, password: Bytes, mode: int, calls: Calls,
                                       m: Mode, n: nat)
    requires Lawful(c) && Sound(c, k) && IsMode(mode, m, n)
    ensures var r := Decrypted(c, k, data, password, mode, calls);
            if |data| < 44 || Derived(c, k, password, data[..16], mode, calls).None? then r == None
            else
              && k.salt.Some?
              && var both := TwoSteps(c, password, k.salt.value, data[..16], n);
              && |both| == n + 12
              && r == c.unseal(m, both[..n], data[16..28], Sealed(data[28..|data| - 16], data[|data| - 16..]))
  {
    hide SessionKey, Sound;
    ModeIs(mode, m, n);
    if |data| >= 44 {
      DerivedIsDirect(c, k, password, data[..16], mode, calls, m, n);
      var r, body := Derived(c, k, password, data[..16], mode, calls), data[28..];
      assert body[..|body| - 16] == data[28..|data| - 16] && body[|body| - 16..] == data[|data| - 16..];
      if r.Some? {
        var both := TwoSteps(c, password, k.salt.value, data[..16], n);
        assert both[..n] == r.value.key;
      }
    }
  }

  /** What was encrypted in one sound cache state is decrypted in any other with the same
      master salt, in each of the three modes. */
  lemma {:induction false} DecryptInvertsEncrypt(c: Crypto, k1: Cache, k2: Cache, plain: Bytes, password: Bytes,
                                                 salt: Bytes, mode: int, calls1: Calls, calls2: Calls, m: Mode, n: nat)
    requires Lawful(c) && Sound(c, k1) && Sound(c, k2) && k1.salt == k2.salt && |salt| == PBKDF2_SALT_LENGTH
    requires IsMode(mode, m, n) && Encrypted(c, k1, plain, password, Some(salt), mode, calls1, true).Some?
    requires calls2.digest && calls2.first && calls2.second
    ensures var data := Encrypted(c, k1, plain, password, Some(salt), mode, calls1, true).value;
            Decrypted(c, k2, data, password, mode, calls2) == Some(plain)
  {
    hide Sound, Derived, Encrypted, Decrypted;
    EncryptedIs(c, k1, plain, password, salt, mode, calls1, m, n);
    var data := Encrypted(c, k1, plain, password, Some(salt), mode, calls1, true).value;
    WhenDerived(c, k1, password, salt, mode, calls1);
    WhenDerived(c, k2, password, data[..16], mode, calls2);
    DecryptedIs(c, k2, data, password, mode, calls2, m, n);
  }

  // ---------------------------------------------------------------------
  // The static state
  // ---------------------------------------------------------------------

  class KeyCache {
    var masterKey: Bytes
    var passwordHash: Bytes
    var cached: bool
    var masterSalt: Bytes
    var saltSet: bool

    ghost function Abstract(): Cache
      reads this
    {
      Cache(masterKey, passwordHash, cached, if saltSet then Some(masterSalt) else None)
    }

    constructor ()
      ensures Abstract() == Cache([], [], false, None)
    {
      masterKey, passwordHash, cached := [], [], false;
      masterSalt, saltSet := [], false;
    }

    /** pgagroal_set_master_salt: the salt that is set already keeps the cache. */
    method SetMasterSalt(salt: Option<Bytes>)
      modifies this
      ensures Abstract() == AfterSetSalt(old(Abstract()), salt)
      ensures Abstract().salt == salt
      ensures if salt == old(Abstract()).salt then Abstract() == old(Abstract())
              else !cached && masterKey == [] && passwordHash == []
    {
      if salt.None? && !saltSet {
        return;
      }
      if salt.Some? && saltSet && masterSalt == salt.value {
        return;
      }
      ClearCache();
      if salt.Some? {
        masterSalt, saltSet := salt.value, true;
      } else {
        masterSalt, saltSet := [], false;
      }
    }

    method ClearCache()
      modifies this
      ensures Abstract() == Cleared(old(Abstract())) && masterSalt == old(masterSalt) && saltSet == old(saltSet)
      ensures !cached && masterKey == [] && passwordHash == []
    {
      masterKey, passwordHash, cached := [], [], false;
    }

    /** derive_key_iv; calls says which library calls succeed. */
    method DeriveKeyIv(c: Crypto, password: Bytes, salt: Bytes, mode: int, calls: Calls) returns (r: Option<KeyIv>)
      modifies this
      ensures Abstract() == AfterDerive(c, old(Abstract()), password, mode, calls)
      ensures r == Derived(c, old(Abstract()), password, salt, mode, calls)
    {
      hide MasterKey, SessionKey;
      if |password| >= MAX_PASSWORD_LENGTH || !saltSet || ModeOf(mode).None? || !calls.digest {
        return None;
      }
      var hash := c.hash(password);
      if !cached || passwordHash != hash {
        if !calls.first {
          masterKey := calls.left;
          return None;
        }
        masterKey := MasterKey(c, password, masterSalt);
        passwordHash := hash;
        cached := true;
      }
      if !calls.second {
        return None;
      }
      return Some(SessionKey(c, masterKey, salt, ModeOf(mode).value));
    }

    /** pgagroal_encrypt, for a salt drawn at random, or none if that failed; seals says
        whether sealing the text and getting memory for it succeed. */
    method Encrypt(c: Crypto, plain: Bytes, password: Bytes, salt: Option<Bytes>, mode: int, calls: Calls, seals: bool)
      returns (r: Option<Bytes>)
      modifies this
      ensures Abstract() ==
              if salt.None? then old(Abstract()) else AfterDerive(c, old(Abstract()), password, mode, calls)
      ensures r == Encrypted(c, old(Abstract()), plain, password, salt, mode, calls, seals)
    {
      hide SessionKey, MasterKey;
      if salt.None? {
        return None;
      }
      var ki := DeriveKeyIv(c, password, salt.value, mode, calls);
      if ki.None? || !seals {
        return None;
      }
      var sealed := c.seal(ModeOf(mode).value, ki.value.key, ki.value.iv, plain);
      return Some(salt.value + ki.value.iv + sealed.text + sealed.tag);
    }

    method Decrypt(c: Crypto, data: Bytes, password: Bytes, mode: int, calls: Calls) returns (r: Option<Bytes>)
      modifies this
      ensures Abstract() == if |data| < PBKDF2_SALT_LENGTH + PBKDF2_IV_LENGTH + GCM_TAG_LENGTH then old(Abstract())
                            else AfterDerive(c, old(Abstract()), password, mode, calls)
      ensures r == Decrypted(c, old(Abstract()), data, password, mode, calls)
    {
      hide SessionKey, MasterKey;
      var head := PBKDF2_SALT_LENGTH + PBKDF2_IV_LENGTH;
      if |data| < head + GCM_TAG_LENGTH {
        return None;
      }
      var ki := DeriveKeyIv(c, password, data[..PBKDF2_SALT_LENGTH], mode, calls);
      if ki.None? {
        return None;
      }
      var body := data[head..];
      var n := |body| - GCM_TAG_LENGTH;
      return c.unseal(ModeOf(mode).value, ki.value.key, data[PBKDF2_SALT_LENGTH..head], Sealed(body[..n], body[n..]));
    }
  }
}
