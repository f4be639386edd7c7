# STM32F407 USART2 framing and SysTick delay, modelled in Dafny

This project models two self-contained parts of an STM32F407 FreeRTOS firmware template.

**USART2 receive pipeline and transmit path** (`usart.dfy`, module `Usart`):
- **Receive ring.** The receive interrupt pushes each byte into the 256-slot circular buffer `g_circ_struct`. Its write cursor is `head` and its read cursor is `tail`. The buffer counts as full when `(head + 1) & 0xFF == tail`, so at most 255 bytes are pending. A byte that arrives when the buffer is full is dropped.
- **Framer.** `receive_packet` drains the ring through a two-state framer. In state 0 it waits for the header byte 0xAA. In state 1 it stores payload bytes in `g_rx_buff[20]`, and 0xAA counts as payload there. The footer 0x55 sets `g_rx_isReady`. A 21st payload byte abandons the frame.
- **Transmit.** `USART2_SendPacket` sends `0xAA ‖ data[0..len) ‖ 0x55` in a single HAL transmit call. `USART2_SendString` makes one call per byte.

**SysTick delay** (`delay.dfy`, module `Delay`):
- `Delay_Init` stores the clock in MHz as `g_fac_us` and programs the SysTick reload with `SYSCLK * 1000000 / configTICK_RATE_HZ`.
- `Delay_us` samples the down-counting SysTick value. Each time the sample changes, it adds the ticks elapsed since the previous sample, using an explicit branch for a wrap. It stops once the total reaches `us * g_fac_us`.
- `Delay_ms` calls `Delay_us(1000)` `ms` times.

How each part is modelled:
- **Global state.** The globals of usart.c sit in one context object, `Usart2`. It holds a `CircularBuffer` object, the receive array, the framer fields and a trace of transmit calls. The static `status` of `receive_packet` is one of its fields.
- **Framer.** The framer is also a pure function, `Step`, over a `FramerState` value. `Feed` folds `Step` over a byte sequence. `ReceivePacket` is proved to leave the object in `Feed(old state, old pending bytes)`. The round-trip, noise and overflow properties are lemmas about `Feed`.
- **Ring.** The ring's unread bytes are `PendingOf(storage, head, tail)`. `Add` and `Read` are proved against it, so bytes come out in FIFO order and exactly once.
- **Delay.** `SysTickDelay` holds `g_fac_us` and the SysTick LOAD register. The values that `SysTick->VAL` returns are an input sequence `samples`. `Accumulated` is the `t_cnt` the loop computes. `Elapsed` is an independent reference: the ticks a counter of period `LOAD + 1` actually counts. `FirstExit` is the sample at which a `Delay_us` loop breaks. `MsRun` chains `Delay_us` runs over one stream of samples, each starting on the sample after the one at which its predecessor broke; `DelayMs` is proved to produce exactly that chain.
- `CTypes` has the C integer widths. 32-bit wrap-around is explicit (`Wrap32`).

## Behaviour worth knowing

The model keeps these behaviours of usart.c:
- **Header.** On a header byte the framer only resets `g_rx_index`. It does not clear the stale contents of `g_rx_buff`.
- **Ready flag.** The framer sets `g_rx_isReady`, and nothing in the code clears it.
- **Transmit errors.** The HAL transmit status is ignored; the send functions return `void`, so a transmit timeout never reaches the caller.
- **Reading a packet.** The application reads `g_rx_buff`, `g_rx_index` and `g_rx_isReady` directly; nothing copies the payload out or clears the flag. The model exposes the same fields.

## Model

| member | source | states |
|---|---|---|
| `Usart.NextIndex` | Drivers/System/usart/usart.c:85 | the next cursor after `i` is below 256: `i + 1` for `i < 255`, 0 for 255 |
| `Usart.PendingOf` | Drivers/System/usart/usart.c:82-113 | the unread bytes number `(head - tail) mod 256`, at most 255; there are none exactly when `head == tail`; the i-th unread byte is storage slot `(tail + i) mod 256` |
| `Usart.FullIffMaxPending` | Drivers/System/usart/usart.c:85-90 | the full test `next(head) == tail` holds exactly when 255 (`CIRC_BUFF_SIZE - 1`) bytes are pending |
| `Usart.PushAppends` | Drivers/System/usart/usart.c:91-96 | when not full, storing at `head` and advancing `head` appends exactly that byte to the pending bytes |
| `Usart.PopFront` | Drivers/System/usart/usart.c:104-113 | when not empty, the byte at `tail` is the oldest pending byte, and advancing `tail` removes exactly it |
| `Usart.CircularBuffer.constructor` | Drivers/System/usart/usart.c:72 | the zero-initialised ring is empty with both cursors 0 |
| `Usart.CircularBuffer.Add` | Drivers/System/usart/usart.c:82-97 | returns 1 iff not full (fewer than 255 pending); if full, returns 0 and leaves `head`, `tail` and every slot unchanged; otherwise writes `data[head]`, advances `head` mod 256 and leaves `tail` unchanged; the pending bytes gain the new byte at the end, or stay the same |
| `Usart.CircularBuffer.Read` | Drivers/System/usart/usart.c:104-113 | returns `data[tail]` and advances `tail` mod 256, with `head` and the storage unchanged; on a non-empty ring this is the oldest pending byte, and it is removed; on an empty ring, 255 stale bytes become pending |
| `Usart.Step` | Drivers/System/usart/usart.c:145-176 | one framer step keeps the buffer size, the index at most 20 and the status 0 or 1; it never clears ready; it sets ready only for 0x55 in state 1; it changes no buffer slot other than the one at the index |
| `Usart.Feed` | Drivers/System/usart/usart.c:142-177 | any byte sequence keeps the index at most 20, the status 0 or 1 and the buffer size; ready, once set, stays set |
| `Usart.FeedConcat` | Drivers/System/usart/usart.c:142-144 | feeding `a + b` is feeding `a` and then `b` |
| `Usart.NoiseIgnored` | Drivers/System/usart/usart.c:147-153 | in state 0, bytes other than 0xAA change nothing |
| `Usart.PayloadStored` | Drivers/System/usart/usart.c:160-165 | in state 1, non-footer bytes that fit are stored in order after the index, 0xAA included; the index grows by their number and the status and ready are unchanged |
| `Usart.FrameRoundTrip` | Drivers/System/usart/usart.c:137-207 | from state 0, feeding `Frame(p)` with `|p| <= 20` and no 0x55 in `p` gives status 0, ready set, index `|p|`, `buff[0..|p|) == p`, and the rest of the buffer unchanged |
| `Usart.OverflowAbandons` | Drivers/System/usart/usart.c:162-170 | a header and then 21 non-footer bytes leave status 0 and index 0, with ready as it was before: the over-long frame is never marked ready |
| `Usart.OverflowThenRecover` | Drivers/System/usart/usart.c:137-178 | after such an abandoned frame, the next well-formed frame is still extracted intact |
| `Usart.Frame` | Drivers/System/usart/usart.c:194-203 | the outbound frame has `len + 2` bytes: 0xAA first, 0x55 last and the payload in between |
| `Usart.SentFrameAsWritten` | Drivers/System/usart/usart.c:194-206 | as written, the frame is transmitted whole when `len + 2 < 65536`; otherwise at most one byte of it goes out |
| `Usart.SendPacketTruncates` | Drivers/System/usart/usart.c:194-206 | for `len == 65534` nothing is sent, although the frame has 65536 bytes |
| `Usart.Usart2.constructor` | Drivers/System/usart/usart.c:72-75 | initially the ring is empty, the framer is in state 0 with index 0, ready is clear, the receive buffer is zero and nothing has been transmitted |
| `Usart.Usart2.IrqHandler` | Drivers/System/usart/usart.c:116-130 | the received byte is appended to the pending bytes unless 255 are already pending; the framer state is untouched |
| `Usart.Usart2.ReceivePacket` | Drivers/System/usart/usart.c:137-178 | returns only when `tail == head` with `head` and the storage unchanged; the framer state becomes `Feed` of the old state over every previously pending byte, in order |
| `Usart.Usart2.FrameByte` | Drivers/System/usart/usart.c:145-176 | the in-place switch on `status` takes the object's framer state to `Step` of it |
| `Usart.Usart2.SendChar` | Drivers/System/usart/usart.c:183-187 | makes one transmit call carrying exactly that byte |
| `Usart.Usart2.SendPacket` | Drivers/System/usart/usart.c:191-207 | makes one transmit call carrying exactly `[0xAA] ++ data[0..len) ++ [0x55]`, which is `len + 2` bytes |
| `Usart.Usart2.SendString` | Drivers/System/usart/usart.c:209-216 | makes exactly `length` transmit calls; call `i` carries the single byte `data[i]`; earlier calls are kept |
| `Usart.Loopback` | Drivers/System/usart/usart.c:116-207 | the frame sent for a payload of at most 20 bytes without 0x55, pushed into an empty ring and drained from state 0, leaves ready set, status 0, and `g_rx_buff[0..g_rx_index) == payload` |
| `Delay.ReloadValue` | Drivers/System/delay/delay.c:16-21 | `SYSCLK * 1000000 / configTICK_RATE_HZ` equals `SYSCLK * 1000`, which is below 2^24 for every 8-bit SYSCLK, 168000 for 168 MHz included |
| `Delay.Ticks` | Drivers/System/delay/delay.c:37 | the `uint32_t` product `us * g_fac_us` is the exact product whenever that is below 2^32 |
| `Delay.TicksInDocumentedRange` | Drivers/System/delay/delay.c:29-37 | for `us <= 2^24 / g_fac_us`, the 32-bit product `us * g_fac_us` does not wrap and is at most 2^24 |
| `Delay.Increment` | Drivers/System/delay/delay.c:46 | the 32-bit increment does not exceed `reload` for samples in `[0, reload]` |
| `Delay.IncrementIsModular` | Drivers/System/delay/delay.c:44-47 | for a changed sample in range, the increment plus one on a wrap is `(t_old - t_now) mod (reload + 1)`; for samples below `reload` it is `(t_old - t_now) mod reload`, in `[1, reload)` |
| `Delay.AccumulatedIdle` | Drivers/System/delay/delay.c:40-49 | while the sampled counter value does not change, `t_cnt` stays 0: only a changed sample adds to it |
| `Delay.BelowTargetBeforeExit` | Drivers/System/delay/delay.c:48-49 | while no changed sample has met the target, `t_cnt < ticks` (or `t_cnt == 0`) |
| `Delay.AccumulatedUndercounts` | Drivers/System/delay/delay.c:40-51 | up to the exit, `t_cnt` does not wrap, and it plus the number of observed wraps equals the ticks the counter really counted |
| `Delay.ExitBounds` | Drivers/System/delay/delay.c:40-51 | at the exit sample the counter has really counted at least `ticks`, so the delay never returns early; at the sample before, at most `ticks` plus one per wrap |
| `Delay.FirstExit` | Drivers/System/delay/delay.c:40-51 | the sample it names, if any, is one at which the loop breaks (changed, and `t_cnt >= ticks`), and no earlier sample breaks it; when it names none, no sample breaks the loop |
| `Delay.ZeroDelayExitsOnFirstChange` | Drivers/System/delay/delay.c:37-49 | with `us == 0`, for any `g_fac_us`, the loop breaks at sample `i` exactly when `i` is the first sample that differs from its predecessor |
| `Delay.MsRun` | Drivers/System/delay/delay.c:59-66 | of `calls` chained `Delay_us` runs, at most `calls` return, and they use no more samples than there are |
| `Delay.MsRunUsesTwoPerCall` | Drivers/System/delay/delay.c:38-66 | each call that returned used at least two samples: its starting value and the changed one at which it broke |
| `Delay.MsRunCountsTicks` | Drivers/System/delay/delay.c:48-66 | the final `t_cnt` values of the calls that returned add up to at least `ticks` per call |
| `Delay.MsRunStopsForGood` | Drivers/System/delay/delay.c:40-66 | if fewer than `ms` calls returned, no sample left after the last returned call breaks the next call's loop |
| `Delay.MsRunAdvance` | Drivers/System/delay/delay.c:62-65 | the next call runs on the samples after the last returned call; if it returns at sample `e` with final `t_cnt`, the chain takes it, using `e + 1` more samples and adding that count; if it does not return, the remaining calls change nothing |
| `Delay.MsRunStuck` | Drivers/System/delay/delay.c:62-65 | once a call has not returned, later calls change nothing |
| `Delay.NoEarlierExit` | Drivers/System/delay/delay.c:40-51 | when no sample before `i` breaks the loop, the first break searched from the start is the first one searched from `i` |
| `Delay.SysTickDelay.constructor` | Drivers/System/delay/delay.c:4 | before initialisation `g_fac_us` is 0 |
| `Delay.SysTickDelay.Init` | Drivers/System/delay/delay.c:13-25 | sets `g_fac_us := SYSCLK` and programs LOAD with `SYSCLK * 1000`, a valid 24-bit reload |
| `Delay.SysTickDelay.DelayUs` | Drivers/System/delay/delay.c:32-52 | returns at sample `i` exactly when `i` is the first changed sample after which `t_cnt >= us * g_fac_us` (mod 2^32); the final `t_cnt` is reported; when no sample qualifies it reports no return; the sample it returns at is the one `FirstExit` names |
| `Delay.SysTickDelay.DelayMs` | Drivers/System/delay/delay.c:59-66 | its `ms` calls of `Delay_us(1000)` are exactly the chain `MsRun`: each call starts on the sample after the one its predecessor broke at, and `done`, `used` and `counted` are the calls that returned, the samples they used and their summed final `t_cnt`; at most `ms` calls return, each using at least two samples; the counted ticks total at least `done * 1000 * g_fac_us`; fewer than `ms` calls return only when no remaining sample would break the next call's loop |

## Findings

| source | as written | input that shows it | evidently intended | confidence | as-written member | corrected member |
|---|---|---|---|---|---|---|
| Drivers/System/usart/usart.c:206 | `sizeof(g_tx_buffer)`, which is `len + 2`, is passed as the HAL's 16-bit `Size`, so it is reduced modulo 65536 | `len = 65534` transmits 0 bytes; `len = 65535` transmits only the header | transmit all `len + 2` bytes of the frame | not executed; low: it depends on `HAL_UART_Transmit` taking a `uint16_t` size, as the STM32 HAL declares it, and it needs a 64 KiB frame on the stack | `Usart.SendPacketTruncates` | `Usart.Usart2.SendPacket` |

## Left out

- `fputc`, `usart_init`, `HAL_UART_MspInit`: register polling and HAL/GPIO/NVIC configuration, with no logic beyond forwarding to the vendor library.
- `USART2_IRQHandler`'s RXNE flag test and its two reads of the DR register: these are hardware I/O. The handler is modelled from the point where it has a byte to push. The model does not capture that a byte arriving between the two DR reads is lost.
- `HAL_UART_Transmit` (its 100 ms and 1000 ms timeouts and its status): it is a foreign call. It is modelled as appending its bytes to `transmitted`, one entry per call.
- `SysTick->CTRL` writes and `HAL_SYSTICK_CLKSourceConfig`: these set hardware clock source and enable bits, and are foreign side effects.
- Concurrency: the `volatile` cursors and the lock-free sharing of the ring between the interrupt and the task. The model runs producer and consumer calls one after another on one object. It does not model atomicity or memory ordering.
- Real time: the wall-clock length of a delay, and whether the `Delay_us` loop terminates on real hardware. The counter is a finite input sequence. A sequence that ends before the exit condition is reported as "not returned".
- `Delay.ExitBounds`: it counts ticks under the assumption that the counter is sampled at least once per period (`LOAD + 1` ticks) with values in `[0, LOAD]`. It does not bound the time spent between samples.
- `Usart.CircularBuffer` cursors: they are `uint16_t` in C. They are modelled as naturals below 256, the only values the code ever stores in them.
- Drivers/System/sys/sys.c (`SystemClock_Config`), User/freertos_demo.c, User/main.c and User/FreeRTOSConfig.h are not part of this model. They hold clock-tree and RTOS set-up over the vendor library and the scheduler. The only value taken from them is `configTICK_RATE_HZ = 1000`.
