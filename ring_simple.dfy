/**
 * The inline logic of `ring_simple` outside the socketxtreme queue: the
 * single-owner L2 address slot, the TLS offload wrappers (statistics bumped
 * only on success, one TX completion poll after each context setup, the lkey
 * default), the NVMe-oTCP feature mask and the TX channel descriptor.
 *
 * The queue-pair manager, the TX completion-queue manager and the DPCP
 * adapter are outside the model. What they answer is a parameter of the
 * operation that asks, and what the ring asks of them is appended to the
 * ghost trace `hwTrace`, in order. Each wrapper runs under `m_lock_ring_tx`
 * in the source and is one atomic step here.
 */
module RingSimple {

  /** `uint32_t`. */
  newtype uint32 = x: int | 0 <= x < 0x1_0000_0000

  /** The lkey value asking the ring to use its own TX buffer-pool lkey. */
  const LKEY_USE_DEFAULT: uint32 := 0xFFFF_FFFF

  /** The NVMe-oTCP offload feature bits a ring can report. */
  const NVME_CRC_TX: bv32 := 1
  const NVME_CRC_RX: bv32 := 2
  const NVME_ZEROCOPY: bv32 := 4
  const NVME_ALL: bv32 := NVME_CRC_TX | NVME_CRC_RX | NVME_ZEROCOPY

  datatype Option<T> = None | Some(value: T)

  /** Opaque handles the ring passes through: TLS info records, TIS and TIR
      objects, buffers, callbacks. */
  type Handle = nat

  /** One request the ring makes of the queue-pair manager, with the
      arguments it passes, or one TX completion poll. */
  datatype HwOp =
    | SetupTx(info: Handle)
    | SetupRx(tir: Handle, info: Handle, nextRecordTcpSn: uint32, callback: Handle, callbackArg: Handle)
    | ResyncTx(info: Handle, tis: Handle, skipStatic: bool)
    | ResyncRx(tir: Handle, info: Handle, hwResyncTcpSn: uint32)
    | ProgressParamsRx(tir: Handle, buf: Handle, lkey: uint32)
    | DumpWqe(tis: Handle, addr: Handle, len: uint32, lkey: uint32, first: bool)
    | PollTx

  /** How many TX completion polls a trace holds. */
  function Polls(t: seq<HwOp>): (n: nat)
    ensures n <= |t|
    ensures n == 0 <==> forall k :: 0 <= k < |t| ==> t[k] != PollTx
  {
    if t == [] then 0 else Polls(t[..|t| - 1]) + (if t[|t| - 1] == PollTx then 1 else 0)
  }

  /** Appending to a trace adds the polls of the appended part. */
  lemma {:induction false} PollsAppend(t: seq<HwOp>, u: seq<HwOp>)
    ensures Polls(t + u) == Polls(t) + Polls(u)
  {
    if u != [] {
      assert (t + u)[..|t + u| - 1] == t + u[..|u| - 1];
      PollsAppend(t, u[..|u| - 1]);
    } else {
      assert t + u == t;
    }
  }

  /** A forwarded request followed by a poll adds exactly one poll. */
  lemma PollsAfterRequest(t: seq<HwOp>, op: HwOp)
    requires op != PollTx
    ensures Polls(t + [op, PollTx]) == Polls(t) + 1
  {
    PollsAppend(t, [op, PollTx]);
    assert [op, PollTx][..1] == [op] && [op][..0] == [];
  }

  /** The lkey a wrapper hands on: its own TX lkey when asked for the default,
      the caller's otherwise. */
  function ResolveLkey(lkey: uint32, txLkey: uint32): (k: uint32)
    ensures k == lkey || k == txLkey
    ensures k == txLkey <==> (lkey == LKEY_USE_DEFAULT || lkey == txLkey)
  {
    if lkey == LKEY_USE_DEFAULT then txLkey else lkey
  }

  /** While the ring's own lkey is a real key, the default marker never reaches
      the hardware, whatever the caller passes. */
  lemma ResolvedLkeyIsReal(lkey: uint32, txLkey: uint32)
    requires txLkey != LKEY_USE_DEFAULT
    ensures ResolveLkey(lkey, txLkey) != LKEY_USE_DEFAULT
  {
  }

  /** Resolving an lkey that is already resolved changes nothing. */
  lemma ResolveLkeyIdempotent(lkey: uint32, txLkey: uint32)
    ensures ResolveLkey(ResolveLkey(lkey, txLkey), txLkey) == ResolveLkey(lkey, txLkey)
  {
  }

  /** The NVMe-oTCP part of the HCA capabilities. */
  datatype NvmeCaps = NvmeCaps(enabled: bool, crcTx: bool, crcRx: bool, zerocopy: bool)

  /** `DPCP_OK`. */
  const DPCP_OK: int := 0

  /** What `get_hca_capabilities` answers: a status and, on success, the capabilities. */
  datatype CapsReply = CapsReply(status: int, caps: NvmeCaps)

  /** NVMe-oTCP is usable: there is an adapter, its capabilities could be read,
      and the offload is enabled. */
  predicate NvmeUsable(adapter: Option<CapsReply>) {
    adapter.Some? && adapter.value.status == DPCP_OK && adapter.value.caps.enabled
  }

  /** `get_supported_nvme_feature_mask`; `adapter` is `None` when the device
      has no DPCP adapter, otherwise the adapter's capability reply. */
  function SupportedNvmeFeatureMask(adapter: Option<CapsReply>): (mask: bv32)
    ensures mask & !NVME_ALL == 0
    ensures !NvmeUsable(adapter) ==> mask == 0
    ensures mask & NVME_CRC_TX != 0 <==> NvmeUsable(adapter) && adapter.value.caps.crcTx
    ensures mask & NVME_CRC_RX != 0 <==> NvmeUsable(adapter) && adapter.value.caps.crcRx
    ensures mask & NVME_ZEROCOPY != 0 <==> NvmeUsable(adapter) && adapter.value.caps.zerocopy
  {
    if adapter.None? || adapter.value.status != DPCP_OK || !adapter.value.caps.enabled then 0
    else
      var c := adapter.value.caps;
      (if c.crcTx then NVME_CRC_TX else 0) | (if c.crcRx then NVME_CRC_RX else 0)
        | (if c.zerocopy then NVME_ZEROCOPY else 0)
  }

  /** An L2 (link-layer) address object, owned by whoever holds it. `live` is
      false once it has been deleted. */
  class L2Address {
    const addr: seq<bv8>
    ghost var live: bool

    constructor(a: seq<bv8>)
      ensures addr == a && live
    {
      addr := a;
      live := true;
    }

    /** `clone`: a new object with the same address. */
    method Clone() returns (c: L2Address)
      requires live
      ensures fresh(c) && c.addr == addr && c.live
    {
      c := new L2Address(addr);
    }

    /** `delete`. */
    method Dispose()
      requires live
      modifies this`live
      ensures !live
    {
      live := false;
    }
  }

  /** A completion event channel; `fd` is the file descriptor it is read through. */
  class CompChannel {
    const fd: nat

    constructor(fd: nat)
      ensures this.fd == fd
    {
      this.fd := fd;
    }
  }

  class Ring {
    /** `m_tx_lkey`: the lkey of the ring's registered TX buffer pool. */
    var txLkey: uint32
    /** `n_tx_tls_contexts` / `n_rx_tls_contexts` of the ring statistics. */
    var nTxTlsContexts: nat
    var nRxTlsContexts: nat
    /** `m_p_l2_addr`: the ring owns the object it points to. */
    var l2Addr: L2Address?
    /** `m_p_tx_comp_event_channel`. */
    var txCompEventChannel: CompChannel?
    /** The requests made of the queue-pair manager and the TX polls, in order. */
    ghost var hwTrace: seq<HwOp>

    /** A ring as the model starts it: its TX lkey and TX channel given, no
        L2 address, zero statistics and nothing asked of the hardware. */
    constructor(txLkey: uint32, txChannel: CompChannel?)
      ensures this.txLkey == txLkey && txCompEventChannel == txChannel
      ensures nTxTlsContexts == 0 && nRxTlsContexts == 0
      ensures l2Addr == null && hwTrace == []
    {
      this.txLkey := txLkey;
      txCompEventChannel := txChannel;
      nTxTlsContexts, nRxTlsContexts := 0, 0;
      l2Addr := null;
      hwTrace := [];
    }

    /** The address slot owns a live object or is empty. */
    ghost predicate L2Owned()
      reads this, l2Addr
    {
      l2Addr != null ==> l2Addr.live
    }

    /** The objects the address slot may dispose of. */
    function L2Slot(): (slot: set<L2Address>)
      reads this
    {
      if l2Addr == null then {} else {l2Addr}
    }

    /** `get_tx_channel_fd`: the channel's descriptor, or -1 when the ring
        has no TX completion channel. */
    function TxChannelFd(): (fd: int)
      reads this
      ensures fd == -1 <==> txCompEventChannel == null
      ensures fd != -1 ==> fd == txCompEventChannel.fd
    {
      if txCompEventChannel != null then txCompEventChannel.fd else -1
    }

    /** `delete_l2_address`: dispose of the held address, if any, and empty the
        slot. Safe on an empty slot. */
    method DeleteL2Address()
      requires L2Owned()
      modifies this`l2Addr, L2Slot()
      ensures l2Addr == null && L2Owned()
      ensures old(l2Addr) != null ==> !old(l2Addr).live
    {
      if l2Addr != null {
        l2Addr.Dispose();
      }
      l2Addr := null;
    }

    /** `save_l2_address`: dispose of the held address, then hold a fresh copy
        of `p`. The caller keeps `p`, which must not be the held object (it
        would be deleted before it is copied). */
    method SaveL2Address(p: L2Address)
      requires L2Owned() && p.live && p != l2Addr
      modifies this`l2Addr, L2Slot()
      ensures L2Owned()
      ensures l2Addr != null && fresh(l2Addr) && l2Addr.addr == p.addr
      ensures p.live
      ensures old(l2Addr) != null ==> !old(l2Addr).live
    {
      DeleteL2Address();
      l2Addr := p.Clone();
    }

    /** `poll_and_process_element_tx` on the TX completion queue. */
    method PollTxCompletions()
      modifies this`hwTrace
      ensures hwTrace == old(hwTrace) + [PollTx]
    {
      hwTrace := hwTrace + [PollTx];
    }

    /** `tls_context_setup_tx`: `hwTis` is what the queue-pair manager answers
        (`None` for NULL). The TX context count goes up by one exactly when a
        TIS came back; one TX poll follows either way. */
    method TlsContextSetupTx(info: Handle, hwTis: Option<Handle>) returns (tis: Option<Handle>)
      modifies this`nTxTlsContexts, this`hwTrace
      ensures tis == hwTis
      ensures nTxTlsContexts == old(nTxTlsContexts) + 1 <==> tis.Some?
      ensures nTxTlsContexts == old(nTxTlsContexts) || nTxTlsContexts == old(nTxTlsContexts) + 1
      ensures hwTrace == old(hwTrace) + [SetupTx(info), PollTx]
    {
      hwTrace := hwTrace + [SetupTx(info)];
      tis := hwTis;
      if tis.Some? {
        nTxTlsContexts := nTxTlsContexts + 1;
      }
      PollTxCompletions();
    }

    /** `tls_context_setup_rx`: `hwRc` is the queue-pair manager's return code.
        The RX context count goes up by one exactly when it is 0; one TX poll
        follows either way. */
    method TlsContextSetupRx(tir: Handle, info: Handle, nextRecordTcpSn: uint32, callback: Handle,
                             callbackArg: Handle, hwRc: int) returns (rc: int)
      modifies this`nRxTlsContexts, this`hwTrace
      ensures rc == hwRc
      ensures nRxTlsContexts == old(nRxTlsContexts) + 1 <==> rc == 0
      ensures nRxTlsContexts == old(nRxTlsContexts) || nRxTlsContexts == old(nRxTlsContexts) + 1
      ensures hwTrace == old(hwTrace) + [SetupRx(tir, info, nextRecordTcpSn, callback, callbackArg), PollTx]
    {
      hwTrace := hwTrace + [SetupRx(tir, info, nextRecordTcpSn, callback, callbackArg)];
      rc := hwRc;
      if rc == 0 {
        nRxTlsContexts := nRxTlsContexts + 1;
      }
      PollTxCompletions();
    }

    /** `tls_context_resync_tx`: forwarded, then one TX poll. */
    method TlsContextResyncTx(info: Handle, tis: Handle, skipStatic: bool)
      modifies this`hwTrace
      ensures hwTrace == old(hwTrace) + [ResyncTx(info, tis, skipStatic), PollTx]
    {
      hwTrace := hwTrace + [ResyncTx(info, tis, skipStatic)];
      PollTxCompletions();
    }

    /** `tls_resync_rx`: forwarded, with no poll. */
    method TlsResyncRx(tir: Handle, info: Handle, hwResyncTcpSn: uint32)
      modifies this`hwTrace
      ensures hwTrace == old(hwTrace) + [ResyncRx(tir, info, hwResyncTcpSn)]
    {
      hwTrace := hwTrace + [ResyncRx(tir, info, hwResyncTcpSn)];
    }

    /** `tls_get_progress_params_rx`: forwarded with the lkey defaulted to the
        ring's own, then one TX poll. */
    method TlsGetProgressParamsRx(tir: Handle, buf: Handle, lkey: uint32)
      modifies this`hwTrace
      ensures hwTrace == old(hwTrace) + [ProgressParamsRx(tir, buf, ResolveLkey(lkey, txLkey)), PollTx]
    {
      var key := lkey;
      if key == LKEY_USE_DEFAULT {
        key := txLkey;
      }
      hwTrace := hwTrace + [ProgressParamsRx(tir, buf, key)];
      PollTxCompletions();
    }

    /** `tls_tx_post_dump_wqe`: forwarded with the lkey defaulted to the ring's
        own, with no poll. */
    method TlsTxPostDumpWqe(tis: Handle, addr: Handle, len: uint32, lkey: uint32, first: bool)
      modifies this`hwTrace
      ensures hwTrace == old(hwTrace) + [DumpWqe(tis, addr, len, ResolveLkey(lkey, txLkey), first)]
    {
      var key := lkey;
      if key == LKEY_USE_DEFAULT {
        key := txLkey;
      }
      hwTrace := hwTrace + [DumpWqe(tis, addr, len, key, first)];
    }
  }

  /** Two `delete_l2_address` calls end as one does: the slot empty and the
      held address disposed of; the second call changes nothing. */
  method DeleteL2AddressTwice(r: Ring)
    requires r.L2Owned()
    modifies r`l2Addr, r.L2Slot()
    ensures r.l2Addr == null && r.L2Owned()
    ensures old(r.l2Addr) != null ==> !old(r.l2Addr).live
  {
    ghost var held := r.l2Addr;
    r.DeleteL2Address();
    ghost var heldLive := held != null && held.live;
    r.DeleteL2Address();
    assert r.l2Addr == null;
    assert heldLive == (held != null && held.live);
  }

  /** Each context setup polls TX exactly once, whether or not it succeeds;
      a failed TX setup leaves the count as it was. */
  method SetupPollsOnce(r: Ring, info: Handle, tir: Handle, sn: uint32)
    modifies r`nTxTlsContexts, r`nRxTlsContexts, r`hwTrace
    ensures Polls(r.hwTrace) == Polls(old(r.hwTrace)) + 2
    ensures r.nTxTlsContexts == old(r.nTxTlsContexts)
    ensures r.nRxTlsContexts == old(r.nRxTlsContexts) + 1
  {
    ghost var t0 := r.hwTrace;
    var tis := r.TlsContextSetupTx(info, None);
    PollsAfterRequest(t0, SetupTx(info));
    ghost var t1 := r.hwTrace;
    var rc := r.TlsContextSetupRx(tir, info, sn, 0, 0, 0);
    PollsAfterRequest(t1, SetupRx(tir, info, sn, 0, 0));
  }
}
