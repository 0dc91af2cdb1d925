# ring_simple: the socketxtreme completion queue and the inline ring wrappers

This is a Dafny model of the inline logic in libxlio's `ring_simple` header
(`src/core/dev/ring_simple.h`). A `ring_simple` is one NIC ring: its
transmit and receive queue pair and their completion queues. The model
covers three parts of it:

- **The socketxtreme event-completion queue** (`m_socketxtreme.ec_list`).
  This is an intrusive, circular, doubly linked `list_head` list. Its nodes
  are the `ring_ec` elements the sockets own. `put_ec` appends at the tail.
  `get_ec` pops the head. `del_ec` removes an element from wherever it
  stands and clears it. The model keeps the links as they are in memory:
  every element has `next`/`prev`, and the queue has the head node's links.
  A ghost sequence holds the head-to-tail order. `Valid()` ties the links
  to that order, with every element distinct. The proofs show the pointer
  updates of `list_add_tail` and `list_del_init` do to the order what the
  header promises: FIFO insertion, removal from any position with the rest
  kept in order, and self-linking of a removed node, so that a second
  removal changes nothing.
- **The single-owner L2 address slot** (`m_p_l2_addr`). Saving an address
  deletes the held one and then holds a fresh clone. Deleting empties the
  slot and is safe on an empty slot.
- **The TLS and NVMe offload wrappers and two getters.**
  - The TLS context setups bump the ring's context counters only on success.
  - They poll the TX completion queue once, whatever the outcome.
  - The progress-params and dump-WQE requests replace the "use default"
    lkey with the ring's own TX lkey.
  - The NVMe-oTCP feature mask is built from the adapter's capabilities.
  - The TX channel descriptor is -1 when the ring has no channel.

The queue-pair manager, the TX completion-queue manager and the DPCP adapter
are outside the model. Their answers are parameters of the operations. The
requests the ring makes of them, and its TX polls, go in order into a ghost
trace (`Ring.hwTrace`).

Files:

- `ec_order.dfy` (module `EcOrder`): facts about the order of queued
  elements as a sequence. `Unlink` is the effect of `list_del_init` on it.
- `socketxtreme.dfy` (module `SocketXtreme`): `RingEc` (an element with its
  embedded list node and its completion record) and `EcQueue` (the queue).
- `ring_simple.dfy` (module `RingSimple`): the `Ring` class with its L2
  slot, counters, TX lkey and channel; the TLS wrappers; the NVMe mask.

Constants that the header uses but defines elsewhere:

- `LKEY_USE_DEFAULT` is `0xFFFFFFFF` here.
- `NVME_CRC_TX` / `NVME_CRC_RX` / `NVME_ZEROCOPY` are the bits 1, 2 and 4.
- `DPCP_OK` is 0.

The proofs only use the facts that the NVMe constants are distinct single
bits and that the lkey marker is one fixed value.

## Model

| member | source | states |
|---|---|---|
| EcOrder.Unlink | src/core/dev/ring_simple.h:329 | the order after `list_del_init`: no element is invented, the removed one is gone, every other one is kept, and the queue shrinks when the element was queued |
| EcOrder.UnlinkAbsent | src/core/dev/ring_simple.h:326-332 | removing an element that is not queued leaves the order unchanged |
| EcOrder.UnlinkAt | src/core/dev/ring_simple.h:326-332 | removing the element at any position gives the elements before it followed by the elements after it, in their original relative order |
| EcOrder.UnlinkIdempotent | src/core/dev/ring_simple.h:326-332 | a second removal of the same element changes nothing |
| EcOrder.UnlinkDistinct | src/core/dev/ring_simple.h:353-357 | removal keeps "at most one queued event per socket" |
| EcOrder.AppendDistinct | src/core/dev/ring_simple.h:319-324 | appending an element that is not queued keeps "at most one queued event per socket" |
| SocketXtreme.LinkedAfterUnlink | src/core/dev/ring_simple.h:329 | once the neighbours of the removed node point to each other, the remaining elements form a correctly linked list in their old order |
| SocketXtreme.RemovedInOrder | src/core/dev/ring_simple.h:329 | after `list_del_init` on the element at position i, the links, the head's included, follow the old order without that element; that order is `Unlink` of the old one and is still one entry per socket |
| SocketXtreme.EcQueue.KeepAbsent | src/core/dev/ring_simple.h:329 | when `list_del_init` runs on an element that is not queued, every link is as before, so the queue is still valid and its order is unchanged |
| SocketXtreme.EcQueue.SetPrevOf | src/core/dev/ring_simple.h:329 | the `next->prev = prev` store of `__list_del`: the `prev` link of the node (element or head) is set, and nothing else changes |
| SocketXtreme.EcQueue.SetNextOf | src/core/dev/ring_simple.h:329 | the `prev->next = next` store of `__list_del`: the `next` link of the node (element or head) is set, and nothing else changes |
| SocketXtreme.RingEc.Clear | src/core/dev/ring_simple.h:330 | `ec->clear()` leaves the element self-linked with an all-zero completion record |
| SocketXtreme.EcQueue.PutEc | src/core/dev/ring_simple.h:319-324 | the element goes to the tail, the queued elements keep their order, and the queue stays valid with one entry per socket |
| SocketXtreme.EcQueue.ListDelInit | src/core/dev/ring_simple.h:329 | `list_del_init` at the pointer level: the node's neighbours link to each other, the node links to itself, no other link changes, and a self-linked node changes nothing |
| SocketXtreme.EcQueue.Detach | src/core/dev/ring_simple.h:329 | after `list_del_init` the queue is valid and its order is the old one without the element; the element is self-linked; an element that was already self-linked leaves the queue unchanged |
| SocketXtreme.EcQueue.GetEc | src/core/dev/ring_simple.h:334-345 | on an empty queue it returns NULL and changes nothing; otherwise it returns the head element, removes exactly that element, and leaves it self-linked |
| SocketXtreme.EcQueue.DelEc | src/core/dev/ring_simple.h:326-332 | the element leaves the queue from any position, the others keep their relative order, and the element ends self-linked and cleared; deleting a self-linked element leaves the queue unchanged |
| SocketXtreme.FifoOrder | src/core/dev/ring_simple.h:319-345 | put A then put B: three gets return A, then B, then NULL |
| SocketXtreme.DelEcTwice | src/core/dev/ring_simple.h:326-332 | two `del_ec` calls on the same element leave the queue as one call does, with the element self-linked and cleared |
| RingSimple.Polls | src/core/dev/ring_simple.h:148 | the number of TX polls in a trace; it is zero exactly when the trace holds no poll |
| RingSimple.PollsAppend | src/core/dev/ring_simple.h:137-202 | the polls of a concatenated trace are the polls of its parts added together |
| RingSimple.PollsAfterRequest | src/core/dev/ring_simple.h:137-202 | a forwarded request followed by a poll adds exactly one poll |
| RingSimple.ResolveLkey | src/core/dev/ring_simple.h:195-197 | the lkey handed on is the caller's or the ring's own; it is the ring's exactly when the caller asked for the default (or passed the ring's lkey itself) |
| RingSimple.ResolvedLkeyIsReal | src/core/dev/ring_simple.h:217-219 | while the ring's TX lkey is a real key, the default marker never reaches the queue pair |
| RingSimple.ResolveLkeyIdempotent | src/core/dev/ring_simple.h:195-197 | defaulting an lkey that was already defaulted changes nothing |
| RingSimple.SupportedNvmeFeatureMask | src/core/dev/ring_simple.h:229-241 | the mask is 0 with no adapter, a failed capability query, or NVMe-oTCP disabled; otherwise each feature bit is set exactly when its capability flag is; no bit outside the three features is ever set |
| RingSimple.L2Address.Clone | src/core/dev/ring_simple.h:379 | `clone()` returns a new, live object with the same address |
| RingSimple.L2Address.Dispose | src/core/dev/ring_simple.h:384 | `delete` kills the object |
| RingSimple.Ring.TxChannelFd | src/core/dev/ring_simple.h:109-112 | the descriptor is -1 exactly when the ring has no TX completion channel, and it is the channel's descriptor otherwise |
| RingSimple.Ring.DeleteL2Address | src/core/dev/ring_simple.h:381-387 | the slot ends empty, a held address is disposed of, and an empty slot is accepted |
| RingSimple.Ring.SaveL2Address | src/core/dev/ring_simple.h:376-380 | the previously held address is disposed of, and the slot then holds a fresh live copy of the argument, which the caller keeps |
| RingSimple.Ring.PollTxCompletions | src/core/dev/ring_simple.h:146-148 | one TX completion poll is appended to the trace |
| RingSimple.Ring.TlsContextSetupTx | src/core/dev/ring_simple.h:137-151 | the queue pair's TIS is returned; `n_tx_tls_contexts` goes up by exactly one iff a TIS came back and is otherwise unchanged; the request is followed by exactly one TX poll |
| RingSimple.Ring.TlsContextSetupRx | src/core/dev/ring_simple.h:161-178 | the queue pair's return code is returned; `n_rx_tls_contexts` goes up by exactly one iff it is 0 and is otherwise unchanged; the request, with all its arguments, is followed by exactly one TX poll |
| RingSimple.Ring.TlsContextResyncTx | src/core/dev/ring_simple.h:179-186 | the request is forwarded and then followed by exactly one TX poll |
| RingSimple.Ring.TlsResyncRx | src/core/dev/ring_simple.h:187-191 | the request is forwarded, with no poll |
| RingSimple.Ring.TlsGetProgressParamsRx | src/core/dev/ring_simple.h:192-202 | the request goes on with the lkey defaulted to the ring's TX lkey, and is then followed by one TX poll |
| RingSimple.Ring.TlsTxPostDumpWqe | src/core/dev/ring_simple.h:214-221 | the request goes on with the lkey defaulted to the ring's TX lkey, with no poll |
| RingSimple.DeleteL2AddressTwice | src/core/dev/ring_simple.h:381-387 | `delete_l2_address` is idempotent: after two calls the slot is empty and the address held before the first call is disposed of, and the second call changes nothing |
| RingSimple.SetupPollsOnce | src/core/dev/ring_simple.h:137-178 | a failed TX setup followed by a successful RX setup makes two polls, leaves the TX count alone, and bumps the RX count by one |

## Left out

- Locking: `lock_ec_list`, `m_lock_ring_tx` and `m_lock_ring_tx_buf_wait`.
  Each locked region is one atomic step in the model. Concurrency and lock
  ordering are not modelled.
- Methods that are only declared in the header have no model, because their
  bodies are not part of this model. These include the buffer pool
  (`mem_buf_tx_get`, `mem_buf_tx_release`, `init_tx_buffers`), CQ moderation
  (`adapt_cq_moderation`, `modify_cq_moderation`), polling and draining
  (`poll_and_process_element_rx`/`_tx`, `drain_and_proccess`,
  `socketxtreme_poll`), buffer reclaim, `send_buffer` and `is_up`. A TX poll
  is one trace entry; its effect on completions is not modelled.
- The other wrappers only forward a call to the queue-pair manager under
  the TX lock: `tls_create_tir`, `tls_release_tis`, `tls_release_tir`,
  `create_tis`, `nvme_set_static_context`, `nvme_set_progress_context`,
  the fence, NOP and dump posts, `reset_inflight_zc_buffers_ctx`, and
  `credits_get`/`credits_return`. They have no rule of their own to model.
  `tls_resync_rx` is kept to contrast with the wrappers that poll.
- `get_comp` and the direct-completion slot `m_socketxtreme.completion`:
  these are plain field access.
- `is_socketxtreme`: it reads a global configuration.
- The plain getters (`tls_*_supported`, `get_tx_lkey`, `get_ctx`,
  `get_tx_comp_event_channel`): they return a field.
- Hardware time conversion, the `create_qp_mgr` factory and the `ring_eth`
  constructor: they depend on the device table and foreign libraries.
- The `cq_moderation_info`, TSO and LRO structures: they are data only.
- The `ring_simple` constructor and destructor are not part of this model.
  `Ring.constructor` and `EcQueue.constructor` only give a starting state:
  an empty list head and no L2 address.
- The layout of `ring_ec`, the `list_head` helpers and the `L2_address`
  class are defined outside the header. The model keeps from a `ring_ec`
  only its list node and a completion made of the event bitmap and the user
  data. It takes `clear()` to zero the completion and self-link the node.
- RingSimple.Ring.TlsContextSetupTx: `n_tx_tls_contexts` is an unbounded
  natural. The width of the `ring_stats_t` fields is not shown, and any
  wrap-around is not modelled.
- RingSimple.Ring.TlsContextSetupRx: `n_rx_tls_contexts` is an unbounded
  natural, for the same reason.
- RingSimple.Ring.TxChannelFd: the channel's descriptor is a natural number,
  while `ibv_comp_channel::fd` is an `int`. The model assumes that an open
  completion channel has a non-negative descriptor. The "-1 exactly when
  there is no channel" direction depends on that assumption.
- Conditional compilation is not modelled. The TLS wrappers exist only when
  `DEFINED_UTLS` is set (ring_simple.h lines 133-222). `create_tis` and the
  NVMe feature mask exist only when `DEFINED_DPCP` is set (lines 223-254).
  The model always includes both groups.
- RingSimple.Ring.SaveL2Address: passing the slot's own object is excluded
  by a precondition. The source would delete that object before copying it.
- SocketXtreme.EcQueue.PutEc: it requires an element that is not queued.
  This is the one-event-per-socket rule the header states as a comment.
  Putting an element that is already queued would corrupt the list, and
  the model does not describe that.
