# ESP32 virtual queue kiosk: a verified Dafny model of its core

The firmware turns an ESP32 into a "take a ticket" kiosk. Phones join its open
access point. A hijacking DNS responder sends every lookup to the kiosk, so
each phone opens the captive portal. There the phone joins a queue and keeps
polling until an attendant presses the boot button. Each press lets the
client at the head of the queue proceed.

This project models the four sequential parts of `main/main.c` and proves
properties about them:

- **Queue registry** (`QueueModel`, `QueueRegistry`). A client is identified
  by its station's 6-byte MAC address. The firmware keeps the queue in a
  fixed array of 50 slots, with a count, a cursor for the next client to
  call, and a pending-press flag. `QueueModel` describes the registry as a
  value. Its pure steps `JoinStep`, `PollStep` and `PressStep` are the
  reference definitions. Its lemmas cover any sequence of joins, polls and
  presses:
  - the invariant `0 <= next <= count <= 50` and "no duplicates" always holds;
  - clients are called strictly in join order, and none twice;
  - each press yields at most one PROCEED.

  `QueueRegistry.MacQueue` is a class holding the array and the three
  globals. Its methods `IndexOf`, `Join`, `Poll` and `SignalPress` follow
  the handlers' branches, and each is proved to perform the matching pure
  step.
- **Button debounce** (`ButtonDebounce`). The button task's nested loops run
  over a sequence of sampled line levels, one sample per line read. They are
  proved to count the same flag settings as an explicit three-state sampler
  (`Idle`, `Debouncing`, `HeldLow`). The lemmas say exactly when the flag is
  set: at the second low sample of a run of lows that starts at the first
  sample or after a high. So each press sets it at most once.
- **DNS hijack** (`DnsHijack`). The in-place transform of the 512-byte
  receive buffer is a method on `array<bv8>`. It is proved equal to the
  reference function `Forged`. Decoders for the header (RFC 1035,
  section 4.1.1) and for a resource record with a compressed name
  (sections 4.1.3 and 4.1.4) show what the response carries:
  - the ID and the question section are echoed;
  - QR and RA are set, and the other header bits are kept;
  - ANCOUNT is 1 when the query's ANCOUNT was 0;
  - one A record for 192.168.4.1 with TTL 60 follows, and its name points
    at offset 12.

Where the code and the system's design description disagree, the model
follows the code:

- Clients are identified by the MAC of the first associated station, not by
  a `queue_number` cookie.
- The capacity is 50, not 99.
- There are no ticket numbers: the queue holds MACs.
- Datagrams shorter than a DNS header are still answered, not dropped.
  `Flagged` models their exact bytes. Where the answer overlaps the header
  writes, it wins.
- Datagrams whose answer would not fit the buffer are accepted by the
  code's guard. See "Findings".

## Model

| member | source | states |
|---|---|---|
| `QueueRegistry.MacQueue.constructor` | main/main.c:28-32 | The registry starts with an empty queue, the cursor at 0 and no press pending; 50 slots are allocated. |
| `QueueRegistry.MacQueue.IndexOf` | main/main.c:185-192 | Returns the smallest used slot index holding the MAC, or -1 exactly when no used slot holds it. |
| `QueueRegistry.MacQueue.Join` | main/main.c:213-227 | Performs `JoinStep` on the registry the fields represent, keeps the invariant, and writes no slot other than slot `count`. |
| `QueueRegistry.MacQueue.Poll` | main/main.c:245-318 | Performs `PollStep` on the registry the fields represent, keeps the invariant, and never writes the slots. |
| `QueueRegistry.MacQueue.SignalPress` | main/main.c:493 | The only change is that the pending-press flag becomes true; the invariant is kept. |
| `QueueModel.JoinSpec` | main/main.c:213-227 | Added exactly when a MAC was obtained, the count is below 50 and the MAC is absent; then the MAC is appended at index `count` and the cursor and flag are unchanged. In every other case (no MAC, already queued, full) nothing changes. The invariant is kept. |
| `QueueModel.PollSpec` | main/main.c:253-316 | PROCEED exactly when a MAC was obtained, the flag is set, `next < count` and the MAC is the entry at `next`. Then `next` grows by one and the flag clears. Otherwise nothing changes. IN_QUEUE exactly when not PROCEED and the MAC is queued; "" with no MAC. The invariant is kept. |
| `QueueModel.ApplySpec` | main/main.c:213-279 | A join, a poll or a press keeps the invariant, only appends to the queue and never moves the cursor back. |
| `QueueModel.RunPreservesInv` | main/main.c:28-31 | After any sequence of joins, polls and presses: `0 <= next <= count <= 50`, no MAC is queued twice, the old queue is a prefix of the new one and the cursor has not moved back. |
| `QueueModel.CalledInJoinOrder` | main/main.c:270-279 | The MACs answered PROCEED over any event sequence are exactly the queue entries between the old and the new cursor, in join order. |
| `QueueModel.CalledAtMostOnce` | main/main.c:270-279 | No MAC is answered PROCEED twice over any event sequence. |
| `QueueModel.OneProceedPerPress` | main/main.c:270-279 | Over any event sequence, the PROCEED answers plus a press still pending at the end never exceed the presses plus a press pending at the start. With no press, at most one PROCEED, and only if a press was pending. |
| `QueueModel.CursorCountsProceeds` | main/main.c:278 | After any event sequence the cursor has advanced by exactly the number of PROCEED answers. |
| `ButtonDebounce.ButtonPollTask` | main/main.c:484-505 | The nested sampling loops over a level sequence set the flag exactly as many times as the three-state reference sampler does. |
| `ButtonDebounce.LastAlwaysHigh` | main/main.c:479-503 | At the top of the loop `last_button_state` is always true. |
| `ButtonDebounce.HighReleases` | main/main.c:495-503 | Any high sample returns the task to the loop's top with the button counted as released. |
| `ButtonDebounce.SetAtIff` | main/main.c:486-493 | Sample k sets the flag if and only if samples k-1 and k are low and sample k-2 is high (or k-1 is the first sample). |
| `ButtonDebounce.OneSetPerPress` | main/main.c:494-500 | Between any two samples that set the flag there is a high sample, so one press (a run of lows) sets it at most once. |
| `ButtonDebounce.NoDoubleLowNoPress` | main/main.c:486-490 | A line never low on two consecutive samples (a single-sample glitch) never sets the flag. |
| `DnsHijack.ForgeResponse` | main/main.c:461-469 | In place on the 512-byte buffer: the first `len+16` bytes become `Forged` of the received bytes, the rest of the buffer is untouched, and `len+16` is the length sent. Requires that the answer fits. |
| `DnsHijack.HandleDatagram` | main/main.c:458-470 | Corrected loop body: sends a reply exactly when `0 < len` and `len+16 <= 512`, and the reply is the forged response. Otherwise the buffer is unchanged and nothing is sent. |
| `DnsHijack.AsWrittenOverrun` | main/main.c:460-468 | The code's guard `len > 0` lets through every receivable length whose 16-byte answer would run past the buffer, exactly 497 to 512. |
| `DnsHijack.ForgedLayout` | main/main.c:462-468 | For at least 8 received bytes: every byte except 2, 3 and 7 is echoed (the ID included). Bytes 2 and 3 gain bit 0x80 with their other bits kept. Byte 7 is 1. The 16-byte answer follows, and the reply is `len+16` long. |
| `DnsHijack.ForgedHeader` | main/main.c:462-464 | Decoded per RFC 1035 section 4.1.1, the reply's header equals the query's with QR=1, RA=1 and the low byte of ANCOUNT set to 1. ID, opcode, AA, TC, RD, Z, RCODE, QDCOUNT, NSCOUNT and ARCOUNT are echoed. |
| `DnsHijack.ForgedAnswerCount` | main/main.c:464 | The reply's ANCOUNT is 1 if and only if the query's ANCOUNT was below 256. |
| `DnsHijack.ForgedAnswer` | main/main.c:466-467 | The appended bytes decode (RFC 1035 sections 4.1.3 and 4.1.4) as a record whose name pointer is 12, with TYPE A, CLASS IN, TTL 60 and RDATA 192.168.4.1. The record ends the message. |

## Left out

- WiFi soft-AP bring-up, NVS and netif initialisation, and the task
  creation in `app_main`: these are platform calls.
- The HTTP server start, URI registration and the page handlers
  (`start_captive_portal_httpd`, `captive_portal_get_handler`,
  `android_captive_portal_handler`, `queue_handler`, `proceed_handler`):
  routing glue. The 302 redirect sent by `join_queue_handler` is not
  modelled. `QueueModel.Body` gives the plain-text poll bodies.
- The HTML and JavaScript page constants: client-side code.
- `hsv_to_rgb` and the LED loop: floating-point colour math and LED driver
  calls.
- `esp_wifi_ap_get_sta_list` and the choice of `sta[0]` as the client:
  a foreign call. The MAC, or `None` when none was obtained, is a parameter
  of `Join` and `Poll`.
- Sockets, `recvfrom`, `sendto`, `gpio_get_level` and `vTaskDelay`:
  I/O and timing. The received length is a parameter. The line levels are
  a sequence, one element per read. The 20 ms and 50 ms delays and the 10 ms
  release-poll interval are not modelled. The endless loops stop when the
  samples run out.
- The unsynchronised sharing of the globals between the HTTP handlers and
  the button task: this is concurrency. Every join, poll and press is an
  atomic step.
- Logging: the log calls only distinguish branches. `JoinOutcome` names the
  join branches.
- `ButtonDebounce.ButtonPollTask` returns the press count. Its write of the
  shared flag (main/main.c:493) is `QueueRegistry.MacQueue.SignalPress`
  (`QueueModel.PressStep`).
- `DnsHijack.ForgeResponse` requires the answer to fit the buffer, because
  the out-of-bounds write the code performs cannot be expressed. That case
  is the finding below.

## Findings

| source | as written | input that shows it | evidently intended | confidence | as-written member | corrected member |
|---|---|---|---|---|---|---|
| main/main.c:459-468 | Any datagram with `len > 0` is answered by copying 16 answer bytes to `buf + len` in the 512-byte buffer. | A 497-byte (up to 512-byte) datagram: `recvfrom` accepts it, and the `memcpy` writes up to byte 527, past the end of `buf`. | Answer only when the reply fits the buffer (`len + 16 <= 512`) and drop the datagram otherwise. The system's design says malformed or oversized queries are dropped silently. | high; not executed | `DnsHijack.AsWrittenOverrun` | `DnsHijack.HandleDatagram` |
