# SimplePatcher and Platform, modelled in Dafny

This project models two parts of the `one.tranic.t.utils` library.

**SimplePatcher** is a binary delta codec.
- `createPatch(src, dst)` writes a header: the length of src, the length of dst (both as `writeInt`, four bytes big-endian) and the 16-byte MD5 digest of src.
- It then runs a single-pass greedy diff with two cursors. It emits `Equal(n)` for a run of equal bytes. On a mismatch it looks ahead at offsets 1..31 in src for `dst[j]`, then in dst for `src[i]`, and otherwise steps both cursors on. It emits the skipped src bytes as `Insert` and then the skipped dst bytes as `Delete`.
- `applyPatch(patch, dst)` replays those commands against dst and rebuilds **src**.
  - Equal copies bytes from dst.
  - Insert appends its stored bytes.
  - Delete checks its stored bytes against dst and skips them.
- applyPatch fails on:
  - a dst of the wrong size (checked before the digest is read);
  - a command past the end of dst;
  - a Delete whose bytes differ from dst;
  - an unknown command byte;
  - a dst that is not used up;
  - a digest that does not match.
  A wrong output length only sets a warning.

**Platform** is an enum of server platforms.
- `of` maps a name, case-insensitively, to a constant.
- `toString` and `toRawString` give the lower-case and the raw names.
- `get()` probes the class path for Velocity, BungeeCord, Folia, ShreddedPaper and Paper in that order. It falls back to Spigot and caches the result in a static field.
- `isBukkit` and `isMultithreading` compare `get()` with constants.

Files:
- `wrappers.dfy`: `Option` and `Result`.
- `data_io.dfy`: bytes, Java `int` wrap-around, `writeInt` / `readInt`.
- `checksum.dfy`: the 16-byte digest stand-in.
- `patch_format.dfy`: commands and their encoding, the header, and `Script`, the relation every diff output must satisfy (each command's bytes and the lengths it covers).
- `diff.dfy`: the diff as pure functions, and its properties.
- `patch_apply.dfy`: applyPatch as pure functions, its error cases and the round trip.
- `simple_patcher.dfy`: the Java loops as methods, each proved to compute the function above.
- `platform.dfy`: the Platform enum, name mapping and the cached detector class.

## Model

| member | source | states |
|---|---|---|
| DataIO.Wrap32 | src/main/java/one/tranic/t/utils/SimplePatcher.java:150 | Java `int` addition: the result is a 32-bit value and equals the sum whenever the sum fits |
| DataIO.ReadWriteInt | src/main/java/one/tranic/t/utils/SimplePatcher.java:36-37 | reading back the four bytes `writeInt(v)` writes gives v as a Java int |
| DataIO.WriteReadInt | src/main/java/one/tranic/t/utils/SimplePatcher.java:130-131 | every four bytes are what `writeInt` writes for the value `readInt` reads from them |
| Checksum.Digest | src/main/java/one/tranic/t/utils/SimplePatcher.java:40-42 | the header digest is 16 bytes and a function of src |
| PatchFormat.EncodeCmdParts | src/main/java/one/tranic/t/utils/SimplePatcher.java:58-59 | a command is encoded as its tag byte, `writeInt` of its length, then its payload |
| PatchFormat.Header | src/main/java/one/tranic/t/utils/SimplePatcher.java:36-45 | the header is 8 + 16 bytes long |
| PatchFormat.EncodeAllEncodes | src/main/java/one/tranic/t/utils/SimplePatcher.java:96-106 | bytes holding the encoding of a command list hold each command in turn at the running offset |
| PatchFormat.EncodeAllAppend | src/main/java/one/tranic/t/utils/SimplePatcher.java:57-106 | encoding two command lists one after the other gives the encoding of their concatenation |
| PatchFormat.ScriptSpan | src/main/java/one/tranic/t/utils/SimplePatcher.java:47-107 | over a valid script, Equal + Insert lengths sum to the src span and Equal + Delete lengths sum to the dst span |
| PatchFormat.ScriptNoAdjacentEquals | src/main/java/one/tranic/t/utils/SimplePatcher.java:50-62 | a valid script, whose Equals are maximal, never has two Equals in a row |
| PatchFormat.WellOrderedAppend | src/main/java/one/tranic/t/utils/SimplePatcher.java:96-106 | joining two well-ordered command lists (no Equal after an Equal, no Insert after an Insert, only an Equal after a Delete) gives a well-ordered list when the seam is ordered |
| GreedyDiff.MatchRun | src/main/java/one/tranic/t/utils/SimplePatcher.java:50-55 | the matchLength loop's count: the bytes it covers agree, and after it one side is exhausted or the next bytes differ |
| GreedyDiff.MatchRunSlices | src/main/java/one/tranic/t/utils/SimplePatcher.java:50-62 | an Equal covers equal bytes: src[i..i+n] == dst[j..j+n] |
| GreedyDiff.RunThenNoRun | src/main/java/one/tranic/t/utils/SimplePatcher.java:50-62 | an Equal is maximal: right after it the bytes at the cursors do not agree |
| GreedyDiff.SrcLookahead | src/main/java/one/tranic/t/utils/SimplePatcher.java:70-76 | the first offset 1..31 at which src shows dst[j] again, or 0 when no such offset is in range |
| GreedyDiff.DstLookahead | src/main/java/one/tranic/t/utils/SimplePatcher.java:80-86 | the first offset 1..31 at which dst shows src[i] again, or 0 when no such offset is in range |
| GreedyDiff.ForcedStep | src/main/java/one/tranic/t/utils/SimplePatcher.java:90-91 | the forced step stays within both inputs and strictly shrinks what is left |
| GreedyDiff.Resync | src/main/java/one/tranic/t/utils/SimplePatcher.java:67-94 | the mismatch loop ends with both cursors moved forward, at least one strictly, at a pair of equal bytes or at the end of both inputs |
| GreedyDiff.OuterPass | src/main/java/one/tranic/t/utils/SimplePatcher.java:49-107 | each outer iteration strictly increases i + j and keeps both cursors within their inputs |
| GreedyDiff.RegionScript | src/main/java/one/tranic/t/utils/SimplePatcher.java:96-106 | the Insert holds exactly src[srcDiffStart..i] and the Delete exactly dst[dstDiffStart..j], Insert first |
| GreedyDiff.DiffFromScript | src/main/java/one/tranic/t/utils/SimplePatcher.java:47-107 | the commands emitted from cursors (i, j) are a valid script over src[i..] and dst[j..] |
| GreedyDiff.DiffFromWellOrdered | src/main/java/one/tranic/t/utils/SimplePatcher.java:57-106 | the emitted commands are well-ordered: no Equal follows an Equal, no Insert follows an Insert (Insert comes before Delete within a region), and only an Equal follows a Delete |
| GreedyDiff.DiffFromHead | src/main/java/one/tranic/t/utils/SimplePatcher.java:49-62 | while input remains something is emitted, and it starts with Equal exactly when the bytes at the cursors agree |
| GreedyDiff.DiffValid | src/main/java/one/tranic/t/utils/SimplePatcher.java:47-107 | the diff covers both inputs: a valid, well-ordered script whose lengths sum to \|src\| and \|dst\|, with no two adjacent Equals |
| GreedyDiff.DiffIdentical | src/main/java/one/tranic/t/utils/SimplePatcher.java:49-62 | for identical inputs x the diff is [Equal(\|x\|)], or empty when x is empty |
| GreedyDiff.ForcedStepPassesEqualBytes | src/main/java/one/tranic/t/utils/SimplePatcher.java:67-94 | for src AXB and dst CXB the forced step passes over the equal XB, so the diff is one Insert of AXB and one Delete of CXB |
| GreedyDiff.PatchRoundTrip | src/main/java/one/tranic/t/utils/SimplePatcher.java:28-207 | applying the patch createPatch writes for (src, dst) to dst succeeds and returns src, with no size warning |
| PatchApply.ExecCommand | src/main/java/one/tranic/t/utils/SimplePatcher.java:145-183 | a successful command moves forward in the patch and never moves dstPos back or past dst |
| PatchApply.RunCommand | src/main/java/one/tranic/t/utils/SimplePatcher.java:148-183 | once tag and length are read, a successful command moves forward in the patch and never moves dstPos back or past dst |
| PatchApply.DeleteChecks | src/main/java/one/tranic/t/utils/SimplePatcher.java:169-179 | a Delete that passes its boundary and content checks writes nothing and advances dstPos by its length, within dst |
| PatchApply.Apply | src/main/java/one/tranic/t/utils/SimplePatcher.java:124-207 | a successful apply had a header, a dst of the header's size and an output whose digest is the header's; the warning flag is set exactly when the output length differs from the header's first int |
| PatchApply.ReplayExtends | src/main/java/one/tranic/t/utils/SimplePatcher.java:144-184 | a successful command loop only appends to the output, moves dstPos forward within dst and reads the patch to its end |
| PatchApply.EncodedFields | src/main/java/one/tranic/t/utils/SimplePatcher.java:145-167 | an encoded command is read back with its own tag, its own length and its own payload |
| PatchApply.ExecEqual | src/main/java/one/tranic/t/utils/SimplePatcher.java:148-155 | a valid Equal copies the next n bytes of dst to the output and advances dstPos by n |
| PatchApply.ExecInsert | src/main/java/one/tranic/t/utils/SimplePatcher.java:157-162 | a valid Insert appends its stored bytes and leaves dstPos alone |
| PatchApply.ExecDelete | src/main/java/one/tranic/t/utils/SimplePatcher.java:164-179 | a valid Delete matches dst, writes nothing and advances dstPos by its length |
| PatchApply.ReplayScript | src/main/java/one/tranic/t/utils/SimplePatcher.java:144-184 | replaying an encoded valid script from (i, j) rebuilds the rest of src and ends with dst used up |
| PatchApply.ApplyAccepts | src/main/java/one/tranic/t/utils/SimplePatcher.java:186-206 | when the header matches, the loop uses up dst and the digest agrees, applyPatch returns the output, and the size mismatch is only a warning |
| PatchApply.SizeGuardFirst | src/main/java/one/tranic/t/utils/SimplePatcher.java:130-136 | a dst whose length differs from the header's second int is refused with the size mismatch error, whatever follows the two ints |
| PatchApply.ReplayStops | src/main/java/one/tranic/t/utils/SimplePatcher.java:143-184 | a command that fails ends the command loop with its error |
| PatchApply.CommandBody | src/main/java/one/tranic/t/utils/SimplePatcher.java:145-149 | with a known tag and a full length field, a command runs on that tag and the length readInt decodes |
| PatchApply.UnknownTagFails | src/main/java/one/tranic/t/utils/SimplePatcher.java:181-182 | a command byte other than 0, 1 or 2 is a format error |
| PatchApply.EqualPastEndFails | src/main/java/one/tranic/t/utils/SimplePatcher.java:149-152 | an Equal reaching past the end of dst is a boundary error |
| PatchApply.DeleteReadsPayloadFirst | src/main/java/one/tranic/t/utils/SimplePatcher.java:165-171 | a Delete whose payload is cut short fails as truncated before its boundary test is reached |
| PatchApply.DeletePastEndFails | src/main/java/one/tranic/t/utils/SimplePatcher.java:169-171 | a complete Delete reaching past the end of dst is a boundary error |
| PatchApply.DeleteMismatchFails | src/main/java/one/tranic/t/utils/SimplePatcher.java:173-176 | a Delete whose bytes differ from dst at some offset is a content mismatch |
| PatchApply.CommandErrorIsFatal | src/main/java/one/tranic/t/utils/SimplePatcher.java:143-184 | once the header is accepted, an error in the command loop is the error of applyPatch |
| PatchApply.EndOfStreamChecks | src/main/java/one/tranic/t/utils/SimplePatcher.java:186-195 | after the loop, dst not used up is an error, and otherwise a digest other than the header's is an error |
| PatchApply.RoundTrip | src/main/java/one/tranic/t/utils/SimplePatcher.java:124-207 | applying the header plus any encoded valid script for (src, dst) to dst succeeds and returns src, with no size warning |
| SimplePatcher.MatchLength | src/main/java/one/tranic/t/utils/SimplePatcher.java:50-55 | the matchLength loop computes MatchRun |
| SimplePatcher.LookaheadInSrc | src/main/java/one/tranic/t/utils/SimplePatcher.java:70-76 | the first lookahead loop computes SrcLookahead |
| SimplePatcher.LookaheadInDst | src/main/java/one/tranic/t/utils/SimplePatcher.java:80-86 | the second lookahead loop computes DstLookahead |
| SimplePatcher.SkipMismatch | src/main/java/one/tranic/t/utils/SimplePatcher.java:67-94 | the mismatch loop terminates at the cursors Resync gives |
| SimplePatcher.WriteMismatch | src/main/java/one/tranic/t/utils/SimplePatcher.java:96-106 | the writes after a mismatch append the encoding of the Insert and then the Delete of the region |
| SimplePatcher.CreatePatch | src/main/java/one/tranic/t/utils/SimplePatcher.java:28-112 | createPatch writes writeInt(\|src\|), writeInt(\|dst\|), the digest of src, then the diff's commands; applying them to dst gives back src |
| SimplePatcher.ExecuteCommand | src/main/java/one/tranic/t/utils/SimplePatcher.java:145-183 | one pass of the command loop computes ExecCommand, error for error |
| SimplePatcher.ApplyPatch | src/main/java/one/tranic/t/utils/SimplePatcher.java:124-207 | applyPatch computes Apply, including which error it raises first |
| Platforms.LowerChar | src/main/java/one/tranic/t/utils/Platform.java:127 | lower-casing a character leaves no upper-case letter and changes nothing else |
| Platforms.Lower | src/main/java/one/tranic/t/utils/Platform.java:127 | lower-casing keeps the length and leaves no upper-case letter |
| Platforms.LowerIdempotent | src/main/java/one/tranic/t/utils/Platform.java:127 | lower-casing twice is lower-casing once |
| Platforms.Of | src/main/java/one/tranic/t/utils/Platform.java:126-136 | of returns the constant whose toString is the lower-cased name; otherwise it fails with "Unknown platform: " + name, and then no constant has that name |
| Platforms.OfExactly | src/main/java/one/tranic/t/utils/Platform.java:127-134 | of(name) is p exactly when the lower-cased name is p's toString |
| Platforms.OfName | src/main/java/one/tranic/t/utils/Platform.java:126-136 | of(p.toString()) == p for every constant |
| Platforms.OfRawName | src/main/java/one/tranic/t/utils/Platform.java:126-136 | of(p.toRawString()) == p for every constant |
| Platforms.OfIgnoresCase | src/main/java/one/tranic/t/utils/Platform.java:127 | of(s) and of(lower(s)) succeed together and agree |
| Platforms.NamesInjective | src/main/java/one/tranic/t/utils/Platform.java:164-185 | toString and toRawString are both injective over the six constants |
| Platforms.NameIsLowerCase | src/main/java/one/tranic/t/utils/Platform.java:164-174 | every toString name is lower-case |
| Platforms.NameIsLowerRawName | src/main/java/one/tranic/t/utils/Platform.java:164-185 | toString is the lower-case form of toRawString |
| Platforms.Bukkit | src/main/java/one/tranic/t/utils/Platform.java:143-148 | Bukkit-based exactly when the platform is neither Velocity nor BungeeCord |
| Platforms.Multithreading | src/main/java/one/tranic/t/utils/Platform.java:155-157 | multithreading implies Bukkit-based |
| Platforms.FirstPresentIndex | src/main/java/one/tranic/t/utils/Platform.java:82-112 | the index of the first platform in the probe order whose probe succeeds, with every earlier probe failing |
| Platforms.DetectAt | src/main/java/one/tranic/t/utils/Platform.java:82-109 | when the k-th probe is the first to succeed, detection returns that platform after k + 1 probes |
| Platforms.DetectNone | src/main/java/one/tranic/t/utils/Platform.java:111-112 | when no probe succeeds, detection returns Spigot after all five probes |
| Platforms.DetectInOrder | src/main/java/one/tranic/t/utils/Platform.java:82-112 | detection is the if-chain Velocity, BungeeCord, Folia, ShreddedPaper, Paper, else Spigot, with the number of probes it makes |
| Platforms.DetectFirstMatch | src/main/java/one/tranic/t/utils/Platform.java:82-112 | detection returns the k-th platform exactly when its probe succeeds and every earlier one fails, and Spigot exactly when none succeeds |
| Platforms.PlatformDetector.constructor | src/main/java/one/tranic/t/utils/Platform.java:60 | the cache starts empty and no probe has been made |
| Platforms.PlatformDetector.Is | src/main/java/one/tranic/t/utils/Platform.java:201-203 | a probe reports whether the platform's class is present, and counts as one probe |
| Platforms.PlatformDetector.Get | src/main/java/one/tranic/t/utils/Platform.java:76-113 | get never returns null; a cached value is returned with no probes, and otherwise the detected platform is cached and returned after exactly the probes detection makes |
| Platforms.PlatformDetector.IsBukkit | src/main/java/one/tranic/t/utils/Platform.java:143-148 | isBukkit answers Bukkit(get()), fills the cache if empty and, once cached, makes no probes |
| Platforms.PlatformDetector.IsMultithreading | src/main/java/one/tranic/t/utils/Platform.java:155-157 | isMultithreading answers Multithreading(get()), fills the cache if empty and, once cached, makes no probes |

## Left out

- Streams and I/O: `readAllBytes`, `CHUNK_SIZE` and the `InputStream`/`OutputStream` types are replaced by byte sequences. "available() > 0" is read as "patch bytes remain".
- Checksum.Digest: MD5 is not modelled. `Digest` is a deterministic 16-byte stand-in, and no proof relies on more than its length and determinism, so tamper detection is not claimed. The `NoSuchAlgorithmException` paths are left out.
- The Logger warning for a wrong output length is modelled as the `sizeWarning` flag of the result. Its text is not modelled.
- The text of the exception messages is not modelled; each error is a constructor of `PatchApply.Error`. Java's signed bytes are modelled as their unsigned values 0..255, which only matters for how an unknown command code is printed.
- Java runtime exceptions are lumped together as `InvalidLength`. These are a negative length (`NegativeArraySizeException`, or an exception inside `write`) and a `dstPos + length` that overflows past the boundary test. An `EOFException` is `Truncated`. Out-of-memory for huge lengths is not modelled.
- SimplePatcher.CreatePatch: requires |src| and |dst| to be at most 2^31 - 1, the largest Java array.
- The documentation of createPatch says the patch turns src into dst. The code rebuilds src from dst, and the model follows the code.
- Platforms.PlatformDetector: `Reflect.hasClass` (reflection, class loading) is modelled as a fixed set of class names that are present. `Reflect` is not part of this model otherwise. The probe counter is a ghost field, used to state that a cached `get` makes no probes.
- The static `platform` field is one field of a detector object. Thread safety of the unsynchronised static cache is not modelled.
- Platforms.Lower: `toLowerCase` follows the default locale; the model lower-cases ASCII A-Z only.
- `getClassPath` is modelled as `Platforms.ClassPath`, the class names of the enum constants.
- `EncodesFrom`, `Script`, `Replay` and their helper predicates are split into two or three mutually recursive layers. The split only bounds how far the verifier unfolds them; it does not change what they mean.
