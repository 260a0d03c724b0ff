# IRSocket address layer, modelled in Dafny

IRSocket is a thin IPv4 socket wrapper written in Swift 2. Almost all of it
hands off to the operating system. The part that does not is modelled here:

- `htons` and `ntohs`, the hand-written 16-bit byte swaps (`data_transform.dfy`).
- `IRSockaddr`, the IPv4 address value (`sockaddr.dfy`). This covers its four
  initialisers, `IPv4ToString` and `IPv4ToInt`.
- Two supporting files. `decimal.dfy` has Swift's decimal printing of an
  integer, its reader, and splitting text at dots. `ctypes.dfy` has the
  fixed-width integer types.

How the Swift behaviour is modelled:

- **Shifts.** Swift's `<<` on `UInt16` drops the bits shifted out. It is
  written as `(v * 0x100) % 0x1_0000`, and `>>` as `v / 0x100`.
- **Trapping `+`.** Swift's `+` traps on overflow. It is the function
  `Add16`, whose precondition is that the sum fits. `Htons` and `Ntohs` are
  only well-formed because that precondition is proved for every input.
- **Trapping conversions.** `sa_family_t(domain)` converts an `Int32` to a
  one-byte `sa_family_t` and traps when the value does not fit. That
  requirement becomes the precondition `FamilyFits`.
- **`inet_aton`.** The platform's `inet_aton` is not modelled. It is a
  parameter of type `string -> InetAtonCall`: its return value, and what it
  left in `addr` starting from zero.
- **The record.** `sockaddr_in` is modelled in its BSD/Darwin layout
  (`sin_len`, a one-byte `sin_family`, `sin_port`, `s_addr`, eight bytes of
  `sin_zero`). That is the layout the code writes. `sin_len` is the constant 16.

The code and its own documentation disagree in one place. The doc comment
of the integer initialiser (`IRSockaddr.swift:45`) says the `UInt32` IP is
"in host format". The initialiser (`IRSockaddr.swift:49-57`) stores `ip`
unchanged, while it does convert the port with `htons`. The model follows the
code: `FromInt` stores `ip` as given.

`IPv4ToString` prints the least significant byte first. Its partner,
`ReadDottedQuad`, reads exactly the texts it prints. The two are proved to be
inverses in both directions. `ReadDottedQuad` is not a model of `inet_aton`,
which also accepts hexadecimal, octal and shortened forms.

## Model

| member | source | states |
|---|---|---|
| `DataTransform.Htons` | TCPListener/IRSocket/IRDataTransform.swift:11-13 | The result is `SwapBytes(value)`: the two bytes exchanged. The body's trapping addition is proved never to overflow. |
| `DataTransform.Ntohs` | TCPListener/IRSocket/IRDataTransform.swift:15-17 | The result is `SwapBytes(value)`, with the operands of the trapping addition in the other order. |
| `DataTransform.SwapBytes` | TCPListener/IRSocket/IRDataTransform.swift:11-17 | The reference byte swap: the result's high byte is the input's low byte, and its low byte is the input's high byte. |
| `DataTransform.ShiftLeft8` | TCPListener/IRSocket/IRDataTransform.swift:12 | Swift's `value << 8` on `UInt16` drops the high byte: the result is the low byte moved up. |
| `DataTransform.ShiftRight8` | TCPListener/IRSocket/IRDataTransform.swift:16 | Swift's logical `value >> 8` on `UInt16` is below 256 and is the high byte: `value` minus 256 times it is below 256. |
| `DataTransform.Add16` | TCPListener/IRSocket/IRDataTransform.swift:12 | Swift's trapping `+` on `UInt16` can only be used where the sum fits. The result then never wraps: it is at least each operand, and subtracting one operand gives the other. |
| `DataTransform.HtonsNeverOverflows` | TCPListener/IRSocket/IRDataTransform.swift:12 | `value << 8` has a zero low byte and `value >> 8` is below 256. Their sum is at most 0xFFFF for every input, so the trapping `+` in `htons` and `ntohs` never traps. |
| `DataTransform.HtonsIsByteSwap` | TCPListener/IRSocket/IRDataTransform.swift:11-13 | `htons(v) == (v % 256) * 256 + v / 256` for every `v`. |
| `DataTransform.NtohsIsHtons` | TCPListener/IRSocket/IRDataTransform.swift:11-17 | `ntohs(v) == htons(v)` for every `v`. |
| `DataTransform.SwapBytesInvolution` | TCPListener/IRSocket/IRDataTransform.swift:11-17 | Swapping the bytes twice gives back the value. |
| `DataTransform.HtonsInvolution` | TCPListener/IRSocket/IRDataTransform.swift:11-17 | `ntohs(htons(v)) == v`, `htons(htons(v)) == v` and `htons(ntohs(v)) == v` for every `v`. |
| `DataTransform.HtonsInjective` | TCPListener/IRSocket/IRDataTransform.swift:11-13 | Distinct ports stay distinct after `htons`. |
| `DataTransform.HtonsFixedPoint` | TCPListener/IRSocket/IRDataTransform.swift:11-13 | `htons(v) == v` exactly when the high and low bytes of `v` are equal. `htons(0) == 0`. |
| `Decimal.Format` | TCPListener/IRSocket/IRSockaddr.swift:104 | Interpolating an unsigned integer gives one or more digits with no dot. The text starts with "0" exactly when the number is zero, and then it is "0" alone. |
| `Decimal.ValueOfFormat` | TCPListener/IRSocket/IRSockaddr.swift:104 | Reading the printed digits gives back the number. |
| `Decimal.FormatOfValue` | TCPListener/IRSocket/IRSockaddr.swift:104 | Every canonical digit string is the printing of the number it denotes. Numbers and canonical texts correspond one to one. |
| `Decimal.FormatLength` | TCPListener/IRSocket/IRSockaddr.swift:99-104 | A byte prints with at most three digits. |
| `Sockaddr.Any` | TCPListener/IRSocket/IRSockaddr.swift:31-39 | The wildcard initialiser, given a family that fits a byte. It yields length 16, `family == domain`, address `INADDR_ANY` (0) and all-zero padding. The stored port reads back through `ntohs` as the caller's port. |
| `Sockaddr.FromInt` | TCPListener/IRSocket/IRSockaddr.swift:49-57 | The integer initialiser. It stores `ip` unchanged as `s_addr`. Length, family, padding and port are as for the wildcard initialiser. |
| `Sockaddr.FromString` | TCPListener/IRSocket/IRSockaddr.swift:68-79 | The string initialiser. It throws `IPCastFailed` with `IPv4ToInt`'s message exactly when `inet_aton` returns 0. Otherwise its address is the one `inet_aton` wrote, and everything else matches the other initialisers. The family must fit a byte only when the conversion succeeds. |
| `Sockaddr.FromCSocket` | TCPListener/IRSocket/IRSockaddr.swift:87-89 | The record given is wrapped unchanged. |
| `Sockaddr.CastFailure` | TCPListener/IRSocket/IRSockaddr.swift:119 | The thrown message has the rejected text verbatim between a 32-character lead and a 19-character tail. |
| `Sockaddr.IPv4ToInt` | TCPListener/IRSocket/IRSockaddr.swift:115-123 | Throws `IPCastFailed("Failed to convert given string: <ip> into integer value")` exactly when `inet_aton` returns 0. Otherwise it returns the address `inet_aton` wrote. |
| `Sockaddr.Octet` | TCPListener/IRSocket/IRSockaddr.swift:99-102 | `UInt8((ip >> 8k) & 0xff)` is the byte of `ip` at weight 2^(8k): `ip` modulo 2^(8k+8) is that byte times 2^(8k) plus what lies below. |
| `Sockaddr.ComposeOctets` | TCPListener/IRSocket/IRSockaddr.swift:99-102 | The four masked bytes `(ip >> 8k) & 0xff` put back together give `ip`. |
| `Sockaddr.OctetsOfCompose` | TCPListener/IRSocket/IRSockaddr.swift:99-102 | Byte `k` of four bytes put together is the `k`-th of them. Bytes and `UInt32` values correspond one to one. |
| `Sockaddr.IPv4ToString` | TCPListener/IRSocket/IRSockaddr.swift:97-105 | Total. The text holds exactly three dots and is otherwise all digits. It is 7 to 15 characters long. |
| `Sockaddr.DottedShape` | TCPListener/IRSocket/IRSockaddr.swift:104 | Four one-to-three-digit components interpolated with dots between them split back into exactly those four components. |
| `Sockaddr.IPv4ToStringFields` | TCPListener/IRSocket/IRSockaddr.swift:97-105 | The text splits at its dots into exactly four components. Component `k` is the decimal text of `(ip >> 8k) & 0xff`, so the least significant byte comes first. |
| `Sockaddr.ReadOctet` | TCPListener/IRSocket/IRSockaddr.swift:104 | A component the reader accepts is the printed form of the byte it reads. |
| `Sockaddr.IPv4ToStringRoundTrip` | TCPListener/IRSocket/IRSockaddr.swift:97-105 | Reading the four printed components `b1..b4` back gives `b1 + b2<<8 + b3<<16 + b4<<24 == ip`. |
| `Sockaddr.ReadDottedQuadFormats` | TCPListener/IRSocket/IRSockaddr.swift:97-105 | Every text the reader accepts is exactly what `IPv4ToString` prints for the address read. |
| `Sockaddr.IPv4ToStringInjective` | TCPListener/IRSocket/IRSockaddr.swift:97-105 | Two different addresses never print the same. |
| `Sockaddr.DescribesUnique` | TCPListener/IRSocket/IRSockaddr.swift:31-79 | Address, host-order port and family determine the whole record the initialisers build. |
| `Sockaddr.InitialisersAgree` | TCPListener/IRSocket/IRSockaddr.swift:31-79 | The wildcard initialiser equals the integer initialiser at address 0. A successful string initialiser equals the integer initialiser at the address `inet_aton` wrote. |
| `Sockaddr.StringAddressRoundTrip` | TCPListener/IRSocket/IRSockaddr.swift:68-79 | Suppose `inet_aton` returns non-zero on a canonical dotted quad and stores `ReadDottedQuad`'s value: first component in the least significant byte, as on a little-endian host. Then the string initialiser succeeds, and its address prints as the very text it was given. |

## Left out

- `inet_aton` is not modelled. Which texts it accepts and what it writes are
  the platform's. The model takes it as a parameter, so which strings
  `inet_aton` rejects (for example "999.1.1.1") is not proved.
- StringAddressRoundTrip: assumes a little-endian host. `inet_aton` writes the
  address in network order, so its first component lands in the first byte
  of memory, and `IPv4ToString` prints the least significant byte of `s_addr`
  first. The two agree only where the first byte in memory is the least
  significant one. The lemma's precondition states this as "`inet_aton`
  stores what `ReadDottedQuad` reads". On a big-endian host `inet_aton`
  stores 0x7F000001 for "127.0.0.1", which prints as "1.0.0.127".
- Swift strings are passed to `inet_aton` as NUL-terminated C strings.
  Truncation at an embedded NUL is part of the `inet_aton` parameter and is
  not modelled separately.
- `IPv4ToInt` returns the whole `in_addr` in the source. The model returns its
  only field, `s_addr`.
- `Htons`, `Ntohs`: the host's byte order is not modelled. Both always swap.
  That matches network order only on a little-endian host.
- Platform struct layout is not modelled: `sizeof(sockaddr_in)` is taken as
  16, the Linux layout without `sin_len` is left out, and so is memory
  representation. Overwriting an address in place through a pointer (the
  socket's `getName`) is left out too.
- The socket wrapper, the TCP connect wrapper, the background reader and the
  listener are not part of this model. Each is a single operating-system call
  plus a return-code check, an endless blocking loop, or a background task.
  Their behaviour is the operating system's, or concurrency and I/O.
- The `var` field of the Swift class is modelled as an immutable datatype
  field. Every initialiser assigns it exactly once, and nothing in the
  modelled code assigns it again.
