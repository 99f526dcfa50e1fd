/**
 The format of a signed payload (fw/code/inc/keychain.h): the blocks of its signature field by field, and
 what makes a payload put together from them authentic.
 */
module SignatureFormat {
  import opened NorFlash
  import opened Ufm
  import opened Bits
  import opened Authentication

  // KCH_BLOCK0; the second hash is for keys this device does not use
  datatype Block0 = Block0(magic: Word, length: Word, pcType: Word, reserved: Word, hash: seq<Word>, hash384: seq<Word>, reserved2: seq<Word>) {
    predicate Valid() { |hash| == 8 && |hash384| == 12 && |reserved2| == 8 }
    function Words(): seq<Word> { [magic, length, pcType, reserved] + (hash + (hash384 + reserved2)) }
  }

  // KCH_BLOCK1_ROOT_ENTRY, and KCH_BLOCK1_CSK_ENTRY without its signature. A coordinate has room for 12
  // words, of which this curve uses 8.
  datatype Key = Key(magic: Word, curve: Word, permissions: Word, id: Word, x: seq<Word>, restX: seq<Word>,
                     y: seq<Word>, restY: seq<Word>, reserved: seq<Word>)
  {
    predicate Valid() { |x| == 8 && |restX| == 4 && |y| == 8 && |restY| == 4 && |reserved| == 5 }
    // What a signature over the key covers
    function Signed(): seq<Word> { [curve, permissions, id] + (x + (restX + (y + (restY + reserved)))) }
    function Words(): seq<Word> { [magic] + Signed() }
  }

  // A signature with its magic number
  datatype Ecdsa = Ecdsa(magic: Word, r: seq<Word>, restR: seq<Word>, s: seq<Word>, restS: seq<Word>) {
    predicate Valid() { |r| == 8 && |restR| == 4 && |s| == 8 && |restS| == 4 }
    function Words(): seq<Word> { [magic] + (r + (restR + (s + restS))) }
  }

  // KCH_SIGNATURE and the protected content; a certificate has no CSK entry
  datatype Payload = Payload(b0: Block0, magic: Word, reserved: seq<Word>, root: Key, csk: Key, byRoot: Ecdsa,
                             entryMagic: Word, over0: Ecdsa, padding: seq<Word>, content: seq<Word>)
  {
    predicate Certificate() { b0.pcType & 0x100 != 0 }

    predicate Valid() {
      && b0.Valid() && |reserved| == 3 && root.Valid() && csk.Valid() && byRoot.Valid() && over0.Valid()
      && |padding| == if Certificate() then 161 else 103
    }

    function FromEntry(): seq<Word> { [entryMagic] + (over0.Words() + (padding + content)) }

    function FromCsk(): seq<Word> { if Certificate() then FromEntry() else csk.Words() + (byRoot.Words() + FromEntry()) }

    function Words(): seq<Word> { b0.Words() + ([magic] + (reserved + (root.Words() + FromCsk()))) }
  }

  // ---------------------------------------------------------------- what makes a payload authentic

  // The permission a key needs for each type of protected content, and the longest content
  predicate Permits(key: Key, pcType: Word) {
    match (pcType & 0xFF) as nat
    case 0 => key.permissions & 0x10 != 0
    case 1 => key.permissions & 1 != 0
    case 2 => key.permissions & 2 != 0
    case 3 => key.permissions & 4 != 0
    case 4 => key.permissions & 8 != 0
    case _ => false
  }

  predicate Sized(d: Device, b0: Block0) {
    var t, n := (b0.pcType & 0xFF) as nat, b0.length as nat;
    && n >= 128 && n % 128 == 0 && t <= 4
    && if b0.pcType & 0x300 != 0 then n == 128
       else if t == 0 then n == 128 + 4 * d.cpldImageWords
       else if t <= 2 then n <= 0x100_0000
       else n <= 0x200_0000
  }

  predicate Zeros(x: seq<Word>) { forall k: nat | k < |x| :: x[k] == 0 }

  predicate Content(d: Device, p: Payload)
    requires p.Valid()
  {
    && p.b0.magic == 0xB6EA_FD19 && Sized(d, p.b0) && Zeros(p.b0.reserved2)
    && |p.content| >= p.b0.length as nat / 4 && d.sha(p.content[..p.b0.length as nat / 4]) == p.b0.hash
  }

  // The root key is the provisioned one and may sign anything
  predicate Root(d: Device, u: Mem, p: Payload)
    requires p.Valid() && IsPage(u)
  {
    && p.magic == 0xF27F_28D7 && p.root.magic == 0xA757_A046 && p.root.curve == 0xC7B8_8C74
    && p.root.permissions == 0xFFFF_FFFF && p.root.id == 0xFFFF_FFFF
    && d.sha(WordsOf(Reversed(p.root.x) + Reversed(p.root.y))) == u[1..9]
  }

  // The root key signs the signing key, which is not cancelled and may sign this type of content
  predicate SigningKey(d: Device, u: Mem, p: Payload)
    requires p.Valid() && IsPage(u)
  {
    && p.csk.magic == 0x1471_1C2F && p.csk.curve == p.root.curve && Permits(p.csk, p.b0.pcType)
    && KeyValid(u, (p.b0.pcType & 0xFF) as nat, p.csk.id as nat) && Zeros(p.csk.reserved)
    && d.ecdsa(p.root.x, p.root.y, p.byRoot.r, p.byRoot.s, p.csk.Signed())
  }

  // A key signs block 0
  predicate Signs(d: Device, key: Key, p: Payload)
    requires p.Valid()
  {
    p.entryMagic == 0x1536_4367 && d.ecdsa(key.x, key.y, p.over0.r, p.over0.s, p.b0.Words())
  }

  // A certificate names a key and holds nothing else
  predicate NamesKey(p: Payload) {
    |p.content| >= 32 && p.content[0] as nat <= 127 && Zeros(p.content[1..32])
  }

  // ---------------------------------------------------------------- where the fields are

  lemma Field(w: seq<Word>, at: nat, x: seq<Word>, rest: seq<Word>)
    requires at <= |w| && w[at..] == x + rest
    ensures at + |x| <= |w| && w[at..at + |x|] == x && w[at + |x|..] == rest
  {
    assert w[at..][..|x|] == x && w[at..][|x|..] == rest;
  }

  // A field of a field
  lemma Part(w: seq<Word>, at: nat, block: seq<Word>, from: nat, to: nat)
    requires at + |block| <= |w| && w[at..at + |block|] == block && from <= to <= |block|
    ensures w[at + from..at + to] == block[from..to]
  {
    forall i: nat | i < to - from ensures w[at + from..at + to][i] == block[from..to][i] {
      assert w[at..at + |block|][from + i] == block[from + i];
    }
  }

  lemma Single(w: seq<Word>, at: nat, block: seq<Word>, i: nat)
    requires at + |block| <= |w| && w[at..at + |block|] == block && i < |block|
    ensures w[at + i] == block[i]
  {
    assert w[at..at + |block|][i] == block[i];
  }

  // The words of a key that lies in a payload
  lemma KeyParts(w: seq<Word>, at: nat, k: seq<Word>)
    requires |k| == 33 && at + 33 <= |w| && w[at..at + 33] == k
    ensures w[at] == k[0] && w[at + 1] == k[1] && w[at + 2] == k[2] && w[at + 3] == k[3]
    ensures w[at + 4..at + 12] == k[4..12] && w[at + 16..at + 24] == k[16..24]
    ensures w[at + 28..at + 33] == k[28..33] && w[at + 1..at + 33] == k[1..33]
  {
    Single(w, at, k, 0);
    Single(w, at, k, 1);
    Single(w, at, k, 2);
    Single(w, at, k, 3);
    Part(w, at, k, 4, 12);
    Part(w, at, k, 16, 24);
    Part(w, at, k, 28, 33);
    Part(w, at, k, 1, 33);
  }

  lemma Block0Fields(b: Block0)
    requires b.Valid()
    ensures var w := b.Words();
            && |w| == 32 && w[0] == b.magic && w[1] == b.length && w[2] == b.pcType && w[4..12] == b.hash && w[24..32] == b.reserved2
  {
  }

  lemma KeyFields(k: Key)
    requires k.Valid()
    ensures var w := k.Words();
            && |w| == 33 && |k.Signed()| == 32 && w[0] == k.magic && w[1] == k.curve && w[2] == k.permissions && w[3] == k.id
            && w[4..12] == k.x && w[16..24] == k.y && w[28..33] == k.reserved && w[1..33] == k.Signed()
  {
    var w := k.Words();
    BehindFirst(k.magic, k.Signed());
    BehindThree(k.magic, k.curve, k.permissions, k.id, k.x + (k.restX + (k.y + (k.restY + k.reserved))));
    TailFields(w, k.x, k.restX, k.y, k.restY, k.reserved);
  }

  lemma BehindFirst(a: Word, rest: seq<Word>)
    ensures ([a] + rest)[0] == a && ([a] + rest)[1..] == rest
    ensures |rest| == 32 ==> ([a] + rest)[1..33] == rest
  {
  }

  lemma BehindThree(a: Word, b: Word, c: Word, d: Word, rest: seq<Word>)
    ensures var w := [a] + ([b, c, d] + rest); w[1] == b && w[2] == c && w[3] == d && w[4..] == rest && |w| == 4 + |rest|
  {
  }

  lemma TailFields(w: seq<Word>, x: seq<Word>, restX: seq<Word>, y: seq<Word>, restY: seq<Word>, reserved: seq<Word>)
    requires |w| == 33 && w[4..] == x + (restX + (y + (restY + reserved)))
    requires |x| == 8 && |restX| == 4 && |y| == 8 && |restY| == 4 && |reserved| == 5
    ensures w[4..12] == x && w[16..24] == y && w[28..33] == reserved
  {
    Field(w, 4, x, restX + (y + (restY + reserved)));
    Field(w, 12, restX, y + (restY + reserved));
    Field(w, 16, y, restY + reserved);
    Field(w, 24, restY, reserved);
    assert w[28..33] == w[28..];
  }

  lemma EcdsaFields(e: Ecdsa)
    requires e.Valid()
    ensures var w := e.Words(); |w| == 25 && w[1..9] == e.r && w[13..21] == e.s
  {
  }

  // The blocks of a payload
  lemma FrontBlocks(w: seq<Word>, b0: seq<Word>, magic: Word, reserved: seq<Word>, root: seq<Word>, rest: seq<Word>)
    requires w == b0 + ([magic] + (reserved + (root + rest))) && |b0| == 32 && |reserved| == 3 && |root| == 33
    ensures |w| >= 69 && w[0..32] == b0 && w[32] == magic && w[36..69] == root && w[69..] == rest
  {
    assert w[0..] == w;
    Field(w, 0, b0, [magic] + (reserved + (root + rest)));
    Field(w, 32, [magic], reserved + (root + rest));
    Field(w, 33, reserved, root + rest);
    Field(w, 36, root, rest);
  }

  lemma Blocks(p: Payload)
    requires p.Valid()
    ensures var w := p.Words();
            && |w| >= 256 && w[0..32] == p.b0.Words() && w[32] == p.magic && w[36..69] == p.root.Words() && w[256..] == p.content
            && (p.Certificate() ==> w[69] == p.entryMagic && w[70..95] == p.over0.Words())
            && (!p.Certificate() ==> w[69..102] == p.csk.Words() && w[102..127] == p.byRoot.Words() && w[127] == p.entryMagic
                                     && w[128..153] == p.over0.Words())
  {
    Block0Fields(p.b0);
    KeyFields(p.root);
    KeyFields(p.csk);
    EcdsaFields(p.byRoot);
    EcdsaFields(p.over0);
    hide Key.Words, Block0.Words, Ecdsa.Words;
    var w := p.Words();
    FrontBlocks(w, p.b0.Words(), p.magic, p.reserved, p.root.Words(), p.FromCsk());
    hide *;
    EntryBlocks(p, w);
  }

  lemma EntryBlocks(p: Payload, w: seq<Word>)
    requires p.Valid() && |w| >= 69 && w[69..] == p.FromCsk()
    requires |p.csk.Words()| == 33 && |p.byRoot.Words()| == 25 && |p.over0.Words()| == 25
    ensures |w| >= 256 && w[256..] == p.content
    ensures p.Certificate() ==> w[69] == p.entryMagic && w[70..95] == p.over0.Words()
    ensures !p.Certificate() ==>
              && w[69..102] == p.csk.Words() && w[102..127] == p.byRoot.Words() && w[127] == p.entryMagic
              && w[128..153] == p.over0.Words()
  {
    hide Key.Words, Ecdsa.Words;
    var at := 69;
    if !p.Certificate() {
      Field(w, 69, p.csk.Words(), p.byRoot.Words() + p.FromEntry());
      Field(w, 102, p.byRoot.Words(), p.FromEntry());
      at := 127;
    }
    hide Payload.FromCsk;
    var r1 := p.padding + p.content;
    var r2 := p.over0.Words() + r1;
    Field(w, at, [p.entryMagic], r2);
    Field(w, at + 1, p.over0.Words(), r1);
    Field(w, at + 26, p.padding, p.content);
  }

  // The words that the authentication looks at
  lemma Block0At(p: Payload)
    requires p.Valid()
    ensures var w := p.Words();
            && HasSignature(w) && w[..32] == p.b0.Words() && w[0] == p.b0.magic && w[1] == p.b0.length && w[2] == p.b0.pcType
            && w[4..12] == p.b0.hash && w[24..32] == p.b0.reserved2 && w[256..] == p.content
  {
    Valid0(p);
    hide *;
    Blocks(p);
    Block0Fields(p.b0);
    var w, b := p.Words(), p.b0.Words();
    Block0Parts(w, b);
    LongEnough(w);
  }

  lemma Valid0(p: Payload)
    requires p.Valid()
    ensures p.b0.Valid()
  {
  }

  lemma Block0Parts(w: seq<Word>, b: seq<Word>)
    requires |b| == 32 && |w| >= 256 && w[0..32] == b
    ensures w[..32] == b && w[0] == b[0] && w[1] == b[1] && w[2] == b[2] && w[4..12] == b[4..12] && w[24..32] == b[24..32]
  {
    assert w[0..32] == w[..32];
    Single(w, 0, b, 0);
    Single(w, 0, b, 1);
    Single(w, 0, b, 2);
    Part(w, 0, b, 4, 12);
    Part(w, 0, b, 24, 32);
  }

  lemma LongEnough(w: seq<Word>)
    ensures HasSignature(w) <==> |w| >= 256
  {
  }

  lemma RootAt(p: Payload)
    requires p.Valid()
    ensures var w, k := p.Words(), p.root;
            && HasSignature(w) && w[32] == p.magic && w[36] == k.magic && w[37] == k.curve && w[38] == k.permissions && w[39] == k.id
            && w[40..48] == k.x && w[52..60] == k.y
  {
    Blocks(p);
    KeyFields(p.root);
    var w, k := p.Words(), p.root.Words();
    hide *;
    KeyParts(w, 36, k);
    LongEnough(w);
  }

  lemma CskAt(p: Payload)
    requires p.Valid() && !p.Certificate()
    ensures var w, k := p.Words(), p.csk;
            && HasSignature(w) && w[69] == k.magic && w[70] == k.curve && w[71] == k.permissions && w[72] == k.id && w[73..81] == k.x
            && w[85..93] == k.y && w[97..102] == k.reserved && w[70..102] == k.Signed()
            && w[103..111] == p.byRoot.r && w[115..123] == p.byRoot.s
  {
    Blocks(p);
    KeyFields(p.csk);
    EcdsaFields(p.byRoot);
    var w, k, e := p.Words(), p.csk.Words(), p.byRoot.Words();
    hide *;
    KeyParts(w, 69, k);
    Part(w, 102, e, 1, 9);
    Part(w, 102, e, 13, 21);
    LongEnough(w);
  }

  lemma EntryAt(p: Payload)
    requires p.Valid()
    ensures var w, at := p.Words(), if p.Certificate() then 69 else 127;
            && HasSignature(w) && w[at] == p.entryMagic && w[at + 2..at + 10] == p.over0.r && w[at + 14..at + 22] == p.over0.s
  {
    Blocks(p);
    EcdsaFields(p.over0);
    var w, e, at := p.Words(), p.over0.Words(), if p.Certificate() then 70 else 128;
    hide *;
    Part(w, at, e, 1, 9);
    Part(w, at, e, 13, 21);
    LongEnough(w);
  }

  // ---------------------------------------------------------------- a payload is authentic when its fields say so

  lemma ContentIff(d: Device, p: Payload)
    requires p.Valid()
    ensures HasSignature(p.Words()) && (Block0Valid(d, p.Words()) <==> Content(d, p))
  {
    Block0At(p);
    var w, n := p.Words(), p.b0.length as nat / 4;
    SizedIff(d, p.b0, w);
    AllZeroIs(p.b0.reserved2);
    FirstWords(w, n, p.content);
    hide Payload.Words, Block0.Words, AllZero, Zeros, LengthAllowed, KchPcType, Sized;
  }

  lemma FirstWords(w: seq<Word>, n: nat, content: seq<Word>)
    requires |w| >= 256 && w[256..] == content
    ensures |content| >= n <==> |w| >= 256 + n
    ensures |content| >= n ==> w[256..256 + n] == content[..n]
  {
    if |content| >= n {
      assert w[256..][..n] == w[256..256 + n];
    }
  }

  lemma SizedIff(d: Device, b0: Block0, w: seq<Word>)
    requires HasSignature(w) && w[1] == b0.length && w[2] == b0.pcType
    ensures Sized(d, b0) <==> PcLength(w) >= 128 && PcLength(w) % 128 == 0 && KchPcType(w) <= 4 && LengthAllowed(d, w)
  {
    TypeBits(b0.pcType);
    assert IsCertificate(w) || IsDecommission(w) <==> b0.pcType & 0x300 != 0;
    hide IsCertificate, IsDecommission;
  }

  lemma TypeBits(t: Word)
    ensures t & 0x300 != 0 <==> t & 0x100 != 0 || t & 0x200 != 0
  {
  }

  lemma AllZeroIs(x: seq<Word>)
    ensures AllZero(x) <==> Zeros(x)
  {
    if AllZero(x) {
      forall k: nat | k < |x| ensures x[k] == 0 {
        assert x[k] in x;
      }
    }
  }

  lemma RootIff(d: Device, u: Mem, p: Payload)
    requires p.Valid() && IsPage(u)
    ensures var w := p.Words(); HasSignature(w) && (w[32] == 0xF27F_28D7 && RootEntryValid(d, u, w) <==> Root(d, u, p))
  {
    RootAt(p);
    hide Payload.Words, WordsOf, Reversed, IsPage;
  }

  lemma SigningKeyIff(d: Device, u: Mem, p: Payload)
    requires p.Valid() && IsPage(u) && !p.Certificate()
    ensures HasSignature(p.Words()) && (CskEntryValid(d, u, p.Words()) <==> SigningKey(d, u, p))
  {
    CskAt(p);
    RootAt(p);
    Block0At(p);
    PermitsIff(p.csk, p.b0.pcType);
    AllZeroIs(p.csk.reserved);
    TypeAndId(p.Words(), p.b0.pcType, p.csk.id);
    hide *;
    CskEntryIs(d, u, p.Words());
    SigningKeyIs(d, u, p);
  }

  lemma TypeAndId(w: seq<Word>, t: Word, id: Word)
    requires HasSignature(w) && w[2] == t && w[72] == id
    ensures KchPcType(w) == TypeOf(t) && CskId(w) == Id(id)
  {
  }

  predicate Meets(a: Word, b: Word) { a & b != 0 }

  function TypeOf(t: Word): nat { (t & 0xFF) as nat }

  function Id(w: Word): nat { w as nat }

  lemma CskEntryIs(d: Device, u: Mem, w: seq<Word>)
    requires HasSignature(w) && IsPage(u)
    ensures |w| >= 256
    ensures CskEntryValid(d, u, w)
       <==> && w[69] == 0x1471_1C2F && w[70] == w[37] && Meets(w[71], RequiredPerm(KchPcType(w)))
            && KeyValid(u, KchPcType(w), CskId(w)) && AllZero(w[97..102])
            && d.ecdsa(w[40..48], w[52..60], w[103..111], w[115..123], w[70..102])
  {
    hide KeyValid, AllZero, RequiredPerm, KchPcType, CskId;
  }

  lemma SigningKeyIs(d: Device, u: Mem, p: Payload)
    requires p.Valid() && IsPage(u)
    ensures SigningKey(d, u, p)
       <==> && p.csk.magic == 0x1471_1C2F && p.csk.curve == p.root.curve && Permits(p.csk, p.b0.pcType)
            && KeyValid(u, TypeOf(p.b0.pcType), Id(p.csk.id)) && Zeros(p.csk.reserved)
            && d.ecdsa(p.root.x, p.root.y, p.byRoot.r, p.byRoot.s, p.csk.Signed())
  {
    hide KeyValid, Zeros, Permits, Key.Signed;
  }

  lemma PermitsIff(k: Key, t: Word)
    ensures Permits(k, t) <==> Meets(k.permissions, RequiredPerm(TypeOf(t)))
  {
  }

  lemma SignsIff(d: Device, p: Payload)
    requires p.Valid()
    ensures var w := p.Words();
            && HasSignature(w)
            && (p.Certificate() ==> (B0EntryValid(d, w[40..48], w[52..60], w, 69) <==> Signs(d, p.root, p)))
            && (!p.Certificate() ==> (B0EntryValid(d, w[73..81], w[85..93], w, 127) <==> Signs(d, p.csk, p)))
  {
    EntryAt(p);
    RootAt(p);
    Block0At(p);
    if !p.Certificate() {
      CskAt(p);
    }
    hide Payload.Words, Block0.Words;
  }

  lemma NamesKeyIff(p: Payload)
    requires p.Valid()
    ensures CertContentValid(p.Words()) <==> NamesKey(p)
  {
    Block0At(p);
    hide Payload.Words, CertContentValid, Block0.Words;
    CertificateWords(p.Words(), p.content);
  }

  lemma CertificateWords(w: seq<Word>, c: seq<Word>)
    requires |w| >= 256 && w[256..] == c
    ensures CertContentValid(w) <==> |c| >= 32 && c[0] as nat <= 127 && Zeros(c[1..32])
  {
    hide AllZero, Zeros;
    if |w| >= 288 {
      SameContent(w, c);
      AllZeroIs(w[257..288]);
    }
  }

  lemma SameContent(w: seq<Word>, c: seq<Word>)
    requires |w| >= 288 && w[256..] == c
    ensures |c| >= 32 && c[0] == w[256] && c[1..32] == w[257..288]
  {
    assert w[256..][1..32] == w[257..288];
  }

  // A payload put together field by field is authentic exactly when its fields say so: the content has the
  // hash and a length in block 0, and signatures lead to it from the provisioned root key, by way of a signing
  // key that may sign its type and is not cancelled, or for a certificate directly
  lemma SignedIsValidIff(d: Device, u: Mem, p: Payload)
    requires p.Valid() && IsPage(u)
    ensures SignatureValid(d, u, p.Words())
       <==> && Content(d, p) && Root(d, u, p)
            && if p.Certificate() then NamesKey(p) && Signs(d, p.root, p) else SigningKey(d, u, p) && Signs(d, p.csk, p)
  {
    ContentIff(d, p);
    RootIff(d, u, p);
    SignsIff(d, p);
    NamesKeyIff(p);
    CertificateIff(p);
    if !p.Certificate() {
      SigningKeyIff(d, u, p);
    }
    hide Payload.Words, Content, Root, NamesKey, Signs, SigningKey, CertContentValid, Block0Valid, RootEntryValid, CskEntryValid,
         B0EntryValid, IsCertificate, Payload.Certificate;
  }

  lemma CertificateIff(p: Payload)
    requires p.Valid()
    ensures HasSignature(p.Words()) && (IsCertificate(p.Words()) <==> p.Certificate())
  {
    Block0At(p);
    hide Payload.Words;
  }

  // Every payload that is long enough is put together in this way
  lemma EveryPayloadHasFields(w: seq<Word>) returns (p: Payload)
    requires |w| >= 256
    ensures p.Valid() && p.Words() == w
  {
    var at := if w[2] & 0x100 != 0 then 69 else 127;
    var b0 := Block0Of(w);
    var root := KeyOf(w, 36);
    var csk := KeyOf(w, 69);
    var byRoot := EcdsaOf(w, 102);
    var over0 := EcdsaOf(w, at + 1);
    p := Payload(b0, w[32], w[33..36], root, csk, byRoot, w[at], over0, w[at + 26..256], w[256..]);
    HasFields(w, p, at);
    EntryJoined(w, p, at);
    hide *;
    CskJoined(w, p, at);
    FrontJoined(w, p);
  }

  lemma HasFields(w: seq<Word>, p: Payload, at: nat)
    requires |w| >= 256 && at == (if w[2] & 0x100 != 0 then 69 else 127) && p.b0.Valid() && p.b0.pcType == w[2]
    requires p.root.Valid() && p.csk.Valid() && p.byRoot.Valid() && p.over0.Valid() && p.reserved == w[33..36] && p.padding == w[at + 26..256]
    ensures p.Valid() && at == if p.Certificate() then 69 else 127
  {
    hide Block0.Valid, Key.Valid, Ecdsa.Valid;
  }

  lemma EntryJoined(w: seq<Word>, p: Payload, at: nat)
    requires |w| >= 256 && at + 26 <= 256 && p.over0.Words() == w[at + 1..at + 26] && p.entryMagic == w[at]
    requires p.padding == w[at + 26..256] && p.content == w[256..]
    ensures p.FromEntry() == w[at..]
  {
    Joined(w, at + 26, 256, w[256..]);
    Joined(w, at + 1, at + 26, w[at + 26..]);
    Joined(w, at, at + 1, w[at + 1..]);
    hide Ecdsa.Words;
  }

  lemma CskJoined(w: seq<Word>, p: Payload, at: nat)
    requires |w| >= 256 && at == (if p.Certificate() then 69 else 127) && p.FromEntry() == w[at..]
    requires p.csk.Words() == w[69..102] && p.byRoot.Words() == w[102..127]
    ensures p.FromCsk() == w[69..]
  {
    Joined(w, 102, 127, w[127..]);
    Joined(w, 69, 102, w[102..]);
    hide Key.Words, Ecdsa.Words, Payload.FromEntry, Payload.Certificate;
  }

  lemma FrontJoined(w: seq<Word>, p: Payload)
    requires |w| >= 256 && p.FromCsk() == w[69..] && p.root.Words() == w[36..69] && p.reserved == w[33..36] && p.magic == w[32]
    requires p.b0.Words() == w[0..32]
    ensures p.Words() == w
  {
    hide Key.Words, Block0.Words, Payload.FromCsk;
    Joined(w, 36, 69, w[69..]);
    Joined(w, 33, 36, w[36..]);
    Joined(w, 32, 33, w[33..]);
    Joined(w, 0, 32, w[32..]);
    assert w[0..] == w;
  }

  lemma Joined(w: seq<Word>, from: nat, to: nat, rest: seq<Word>)
    requires from <= to <= |w| && rest == w[to..]
    ensures w[from..to] + rest == w[from..]
    ensures to == from + 1 ==> w[from..to] == [w[from]]
  {
  }

  lemma Block0Of(w: seq<Word>) returns (b: Block0)
    requires |w| >= 32
    ensures b.Valid() && b.Words() == w[0..32] && b.pcType == w[2]
  {
    b := Block0(w[0], w[1], w[2], w[3], w[4..12], w[12..24], w[24..32]);
  }

  lemma KeyOf(w: seq<Word>, at: nat) returns (k: Key)
    requires at + 33 <= |w|
    ensures k.Valid() && k.Words() == w[at..at + 33]
  {
    var x := w[at..at + 33];
    k := Key(x[0], x[1], x[2], x[3], x[4..12], x[12..16], x[16..24], x[24..28], x[28..33]);
    assert k.Words() == x;
  }

  lemma EcdsaOf(w: seq<Word>, at: nat) returns (e: Ecdsa)
    requires at + 25 <= |w|
    ensures e.Valid() && e.Words() == w[at..at + 25]
  {
    var x := w[at..at + 25];
    e := Ecdsa(x[0], x[1..9], x[9..13], x[13..21], x[21..25]);
    assert e.Words() == x;
  }
}
