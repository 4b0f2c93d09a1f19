/** Building the signers of a shard from its configuration (pkg/signer/signer.go). */
module SignerConfigs {
  import opened Basics
  import opened Signing

  /** One configured signer; `mtcCosigner` marks a member of the shared batch signer. */
  datatype SignerConfig = SignerConfig(
    keyPath: string,
    password: string,
    tinkKEKURI: string,
    tinkKeysetPath: string,
    gcpkmsRetries: nat,
    gcpkmsTimeout: nat,
    mtcCosigner: bool)

  const EMPTY_SIGNER := SignerConfig("", "", "", "", 0, 0, false)

  datatype MTCConfig = MTCConfig(logID: string, logOrigin: string, logNumber: nat, batchSize: int, flushInterval: int)

  datatype SigningConfig = SigningConfig(single: SignerConfig, mtc: Option<MTCConfig>, signers: seq<SignerConfig>)

  const DEFAULT_FLUSH_INTERVAL := 500_000_000

  /** Loading keys and starting the batch signer, all of which may fail. */
  datatype Loader = Loader(
    signer: SignerConfig -> Option<Signer>,
    cosigner: SignerConfig -> Option<Key>,
    batch: (MTCConfig, seq<Key>) -> Option<Signer>
  )

  /** Nothing was configured at all. */
  predicate IsUnset(cfg: SigningConfig) { cfg.signers == [] && cfg.mtc.None? && cfg.single == EMPTY_SIGNER }

  /** `GetSignerConfigs`: the list if there is one, else the single embedded configuration. */
  function Configs(cfg: SigningConfig): (configs: seq<SignerConfig>)
    ensures configs != []
  {
    if |cfg.signers| > 0 then cfg.signers else [cfg.single]
  }

  function WithDefaultFlush(m: MTCConfig): MTCConfig {
    if m.flushInterval <= 0 then m.(flushInterval := DEFAULT_FLUSH_INTERVAL) else m
  }

  predicate Loads(loader: Loader, cfg: SigningConfig, c: SignerConfig) {
    if c.mtcCosigner then cfg.mtc.Some? && loader.cosigner(c).Some? else loader.signer(c).Some?
  }

  predicate LoadsAll(loader: Loader, cfg: SigningConfig, configs: seq<SignerConfig>) {
    forall i :: 0 <= i < |configs| ==> Loads(loader, cfg, configs[i])
  }

  /** The signers of the entries that are no batch cosigners, in order. */
  function PlainSigners(loader: Loader, configs: seq<SignerConfig>): seq<Signer> {
    if configs == [] then []
    else
      var c, before := configs[|configs| - 1], PlainSigners(loader, configs[..|configs| - 1]);
      if !c.mtcCosigner && loader.signer(c).Some? then before + [loader.signer(c).value] else before
  }

  /** The keys of the batch cosigners, in order. */
  function BatchKeys(loader: Loader, configs: seq<SignerConfig>): seq<Key> {
    if configs == [] then []
    else
      var c, before := configs[|configs| - 1], BatchKeys(loader, configs[..|configs| - 1]);
      if c.mtcCosigner && loader.cosigner(c).Some? then before + [loader.cosigner(c).value] else before
  }

  /** The number of leading entries before the first batch cosigner. */
  function FirstBatch(configs: seq<SignerConfig>): (k: nat)
    ensures k <= |configs|
    ensures k < |configs| ==> configs[k].mtcCosigner
    ensures forall i :: 0 <= i < k ==> !configs[i].mtcCosigner
  {
    if configs == [] || configs[0].mtcCosigner then 0 else 1 + FirstBatch(configs[1..])
  }

  /** `slices.Insert`. */
  function InsertAt(signers: seq<Signer>, k: nat, s: Signer): seq<Signer>
    requires k <= |signers|
  {
    signers[..k] + [s] + signers[k..]
  }

  /**
    The merged list: the plain signers in order, with one batch signer over all
    cosigners in order at the place of the first of them.
   */
  function Merged(loader: Loader, cfg: SigningConfig): Option<seq<Signer>> {
    var configs := Configs(cfg);
    if !LoadsAll(loader, cfg, configs) then None
    else if FirstBatch(configs) == |configs| then Some(PlainSigners(loader, configs))
    else if cfg.mtc.None? then None
    else
      var batch := loader.batch(WithDefaultFlush(cfg.mtc.value), BatchKeys(loader, configs));
      if batch.None? then None
      else
        PlainEnough(loader, cfg, configs);
        Some(InsertAt(PlainSigners(loader, configs), FirstBatch(configs), batch.value))
  }

  lemma PrefixStep(loader: Loader, configs: seq<SignerConfig>, i: nat)
    requires i < |configs|
    ensures configs[..i + 1][..i] == configs[..i] && configs[..i + 1][i] == configs[i]
    ensures var c := configs[i];
            && PlainSigners(loader, configs[..i + 1]) == PlainSigners(loader, configs[..i])
               + (if !c.mtcCosigner && loader.signer(c).Some? then [loader.signer(c).value] else [])
            && BatchKeys(loader, configs[..i + 1]) == BatchKeys(loader, configs[..i])
               + (if c.mtcCosigner && loader.cosigner(c).Some? then [loader.cosigner(c).value] else [])
  {
    assert configs[..i + 1][..i] == configs[..i];
  }

  lemma FirstBatchIs(configs: seq<SignerConfig>, i: nat)
    requires i <= |configs| && (i < |configs| ==> configs[i].mtcCosigner)
    requires forall j :: 0 <= j < i ==> !configs[j].mtcCosigner
    ensures FirstBatch(configs) == i
  {
  }

  /** `NewMultipleFromConfig`. */
  method NewMultipleFromConfig(loader: Loader, cfg: SigningConfig) returns (r: Result<seq<Signer>>)
    ensures match Merged(loader, cfg)
            case None => r.Err?
            case Some(signers) => r == Ok(signers)
  {
    hide PlainSigners, BatchKeys, FirstBatch;
    var configs := Configs(cfg);
    var signers: seq<Signer> := PlainSigners(loader, configs[..0]);
    var cosigners: seq<Key> := BatchKeys(loader, configs[..0]);
    var insertPos := -1;
    EmptyPrefix(loader, configs);
    for i := 0 to |configs|
      invariant forall j :: 0 <= j < i ==> Loads(loader, cfg, configs[j])
      invariant signers == PlainSigners(loader, configs[..i]) && cosigners == BatchKeys(loader, configs[..i])
      invariant cosigners == [] ==> |signers| == i && forall j :: 0 <= j < i ==> !configs[j].mtcCosigner
      invariant cosigners != [] ==>
                insertPos == FirstBatch(configs) <= |signers| && FirstBatch(configs) < |configs| && cfg.mtc.Some?
    {
      PrefixStep(loader, configs, i);
      var sc := configs[i];
      if sc.mtcCosigner {
        if cfg.mtc.None? {
          assert !Loads(loader, cfg, sc);
          return Err("mtcCosigner is true but no mtc config block is set");
        }
        var key := loader.cosigner(sc);
        if key.None? {
          assert !Loads(loader, cfg, sc);
          return Err("loading MTC cosigner key");
        }
        cosigners := cosigners + [key.value];
        if |cosigners| == 1 {
          insertPos := |signers|;
          FirstBatchIs(configs, i);
        }
      } else {
        var s := loader.signer(sc);
        if s.None? {
          assert !Loads(loader, cfg, sc);
          return Err("creating signer");
        }
        signers := signers + [s.value];
      }
    }
    assert configs[..|configs|] == configs;
    if |cosigners| > 0 {
      var batch := loader.batch(WithDefaultFlush(cfg.mtc.value), cosigners);
      if batch.None? {
        return Err("creating MTC batch signer");
      }
      signers := signers[..insertPos] + [batch.value] + signers[insertPos..];
    } else {
      FirstBatchIs(configs, |configs|);
    }
    r := Ok(signers);
  }

  lemma EmptyPrefix(loader: Loader, configs: seq<SignerConfig>)
    ensures PlainSigners(loader, configs[..0]) == [] && BatchKeys(loader, configs[..0]) == []
  {
  }

  /** The number of plain entries among the first `i`. */
  function PlainBefore(configs: seq<SignerConfig>, i: nat): nat
    requires i <= |configs|
  {
    if i == 0 then 0 else PlainBefore(configs, i - 1) + (if configs[i - 1].mtcCosigner then 0 else 1)
  }

  lemma {:induction false} PlainSignersCount(loader: Loader, cfg: SigningConfig, configs: seq<SignerConfig>, i: nat)
    requires LoadsAll(loader, cfg, configs) && i <= |configs|
    ensures |PlainSigners(loader, configs[..i])| == PlainBefore(configs, i)
  {
    if i > 0 {
      PlainSignersCount(loader, cfg, configs, i - 1);
      PrefixStep(loader, configs, i - 1);
      assert Loads(loader, cfg, configs[i - 1]);
    }
  }

  /** Plain entry `i` is found after the plain entries before it. */
  lemma {:induction false} PlainSignerAt(loader: Loader, cfg: SigningConfig, configs: seq<SignerConfig>, i: nat, n: nat)
    requires LoadsAll(loader, cfg, configs) && i < n <= |configs| && !configs[i].mtcCosigner
    ensures var (plain, p) := (PlainSigners(loader, configs[..n]), PlainBefore(configs, i));
            p < |plain| && Some(plain[p]) == loader.signer(configs[i])
    decreases n
  {
    PrefixStep(loader, configs, n - 1);
    PlainSignersCount(loader, cfg, configs, n - 1);
    if i < n - 1 {
      PlainSignerAt(loader, cfg, configs, i, n - 1);
    } else {
      assert Loads(loader, cfg, configs[i]);
    }
  }

  /** Cosigner `i` is found after the cosigners before it, and there are as many keys as cosigners. */
  lemma {:induction false} BatchKeyAt(loader: Loader, cfg: SigningConfig, configs: seq<SignerConfig>, i: nat, n: nat)
    requires LoadsAll(loader, cfg, configs) && i < n <= |configs|
    ensures var (keys, b) := (BatchKeys(loader, configs[..n]), i - PlainBefore(configs, i));
            && |keys| == n - PlainBefore(configs, n)
            && (configs[i].mtcCosigner ==> 0 <= b < |keys| && Some(keys[b]) == loader.cosigner(configs[i]))
    decreases n
  {
    PrefixStep(loader, configs, n - 1);
    assert Loads(loader, cfg, configs[n - 1]);
    if i < n - 1 {
      BatchKeyAt(loader, cfg, configs, i, n - 1);
    } else if n == 1 {
      EmptyPrefix(loader, configs);
    } else {
      BatchKeyAt(loader, cfg, configs, 0, n - 1);
    }
  }

  /** Before the first cosigner every entry is plain; after it at least one is not. */
  lemma {:induction false} PlainBeforeFirstBatch(configs: seq<SignerConfig>, i: nat)
    requires i <= |configs|
    ensures i <= FirstBatch(configs) ==> PlainBefore(configs, i) == i
    ensures i > FirstBatch(configs) ==> FirstBatch(configs) <= PlainBefore(configs, i) < i
  {
    if i > 0 {
      PlainBeforeFirstBatch(configs, i - 1);
    }
  }

  lemma PlainEnough(loader: Loader, cfg: SigningConfig, configs: seq<SignerConfig>)
    requires LoadsAll(loader, cfg, configs)
    ensures FirstBatch(configs) <= |PlainSigners(loader, configs)|
  {
    assert configs[..|configs|] == configs;
    PlainSignersCount(loader, cfg, configs, |configs|);
    PlainBeforeFirstBatch(configs, |configs|);
  }

  /**
    Where every configured signer ends up: the merged list is never empty, each plain entry
    keeps its order, shifted by one past the batch signer, which takes the first cosigner's place
    and holds the key of each cosigner after the keys of the cosigners before it.
   */
  lemma MergedPositions(loader: Loader, cfg: SigningConfig, i: nat)
    requires Merged(loader, cfg).Some? && i < |Configs(cfg)|
    ensures var (configs, merged, k) := (Configs(cfg), Merged(loader, cfg).value, FirstBatch(Configs(cfg)));
            var position := PlainBefore(configs, i) + (if k < i then 1 else 0);
            && merged != []
            && |merged| == PlainBefore(configs, |configs|) + (if k < |configs| then 1 else 0)
            && (!configs[i].mtcCosigner ==> position < |merged| && Some(merged[position]) == loader.signer(configs[i]))
            && (k < |configs| ==>
                  && k < |merged| && cfg.mtc.Some?
                  && Some(merged[k]) == loader.batch(WithDefaultFlush(cfg.mtc.value), BatchKeys(loader, configs)))
            && var (keys, b) := (BatchKeys(loader, configs), i - PlainBefore(configs, i));
               && |keys| == |configs| - PlainBefore(configs, |configs|)
               && (configs[i].mtcCosigner ==> 0 <= b < |keys| && Some(keys[b]) == loader.cosigner(configs[i]))
  {
    hide PlainSigners, BatchKeys, FirstBatch, PlainBefore;
    var configs := Configs(cfg);
    assert configs[..|configs|] == configs;
    PlainSignersCount(loader, cfg, configs, |configs|);
    PlainBeforeFirstBatch(configs, |configs|);
    PlainBeforeFirstBatch(configs, i);
    BatchKeyAt(loader, cfg, configs, i, |configs|);
    if !configs[i].mtcCosigner {
      PlainSignerAt(loader, cfg, configs, i, |configs|);
    }
  }

  /**
    The signers come back if and only if every plain entry loads and, when there is a cosigner, the shared settings are
    there, every cosigner's key loads and the batch signer starts, with a flush interval that is never zero.
   */
  lemma MergedIff(loader: Loader, cfg: SigningConfig, configs: seq<SignerConfig>)
    requires configs == if cfg.signers == [] then [cfg.single] else cfg.signers
    ensures Merged(loader, cfg).Some?
            <==> && (forall i :: 0 <= i < |configs| && !configs[i].mtcCosigner ==> loader.signer(configs[i]).Some?)
                 && (forall i :: 0 <= i < |configs| && configs[i].mtcCosigner ==>
                       cfg.mtc.Some? && loader.cosigner(configs[i]).Some?)
                 && ((exists i :: 0 <= i < |configs| && configs[i].mtcCosigner) ==>
                       && cfg.mtc.Some?
                       && loader.batch(WithDefaultFlush(cfg.mtc.value), BatchKeys(loader, configs)).Some?)
  {
    hide PlainSigners, BatchKeys, WithDefaultFlush;
    assert forall i :: 0 <= i < |configs| ==> Loads(loader, cfg, configs[i])
                                              == if configs[i].mtcCosigner
                                                 then cfg.mtc.Some? && loader.cosigner(configs[i]).Some?
                                                 else loader.signer(configs[i]).Some?;
    if i :| 0 <= i < |configs| && configs[i].mtcCosigner {
      assert FirstBatch(configs) < |configs|;
    }
  }

  /** Only the empty configuration counts as unset. */
  lemma UnsetIff(cfg: SigningConfig)
    ensures IsUnset(cfg) <==> cfg == SigningConfig(SignerConfig("", "", "", "", 0, 0, false), None, [])
  {
  }

  lemma FlushIsPositive(m: MTCConfig)
    ensures var f := WithDefaultFlush(m);
            && 0 < f.flushInterval && (0 < m.flushInterval ==> f == m)
            && (f.logID, f.logOrigin, f.logNumber, f.batchSize) == (m.logID, m.logOrigin, m.logNumber, m.batchSize)
            && (m.flushInterval <= 0 ==> f.flushInterval == 500 * 1_000_000)
  {
  }
}
