# Verification of the wallet engine, CRC-32 and path arithmetic of zuluCrypt

This project models the parts of zuluCrypt that keep data over time or compute with it, and proves what
they keep:

* **The wallet engine** (`zuluSafe/zuluwallet.c`). `WalletNodes.dfy` gives the byte layout of the nodes and
  the plain sequence of key/value pairs it stands for. `OpenWallet.dfy` is the open wallet: a class with the
  byte array, its size, its entry count and its modified flag, and every operation on it in place.
  `WalletFile.dfy` is the file: salt, vector, one chained encryption of header, nodes and padding.
  `WalletSessions.dfy` follows a wallet file through any number of sessions, each opened with the password
  the last one left; `WalletCrashes.dfy` lets any of them crash between the writes of its close.
* **The file codec** of the same source (`FileCodec.dfy`): a writer that encrypts 32 and then 1024 bytes at a
  time, a reader that decrypts a count of whole blocks and a remainder, and the progress both report.
* **The cipher** (`Cbc.dfy`): cipher block chaining (section 6.2 of NIST SP 800-38A) over an abstract
  invertible cipher on 16-byte blocks, with a handle that carries the chaining value from call to call.
* **The command line client** (`zuluSafe/zuluSafe.c`). `ZuluSafe.dfy` has its commands over an open wallet and a
  file system; `ClientLives.dfy` puts runs of the client on top of wallet sessions.
* **CRC-32** (`external_libraries/tcplay/crc32.c`). `LinearRegister.dfy` holds the laws of a shift register
  over any type; `CrcTable.dfy` the 256 table entries; `Crc32.dfy` the loop against bit-at-a-time division;
  `CrcDetects.dfy` what the CRC detects.
* **Mapper names** (`zuluCrypt-gui/utility.cpp`, `zuluMount-cli/volume_status.c`). `PathHash.dfy` is the 32-bit
  path hash, `MapperPath.dfy` the printer of names, `MapperNames.dfy` which paths can share a name,
  `VolumeStatus.dfy` the parser that reads a UUID back out of a name.
* **Logical volume names** (`LvmPath.dfy`), **volume placement** (`VolumeOffset.dfy`) and the **mount list
  monitor** (`MountMonitor.dfy`).

`Bytes.dfy`, `Files.dfy`, `Sequences.dfy` and `Arithmetic.dfy` are shared by the others.

A class stands where the source updates an object or a buffer in place, a method with a loop where the source
loops, and each is proved against a function of its inputs or of its old state; the lemmas are about those
functions. Random salts and vectors, the bytes of memory that nobody sets (header fill, padding, the stale
tail of a buffer), old temporary files, the progress callback and the success of `mmap` are parameters or
ghost results, so every statement holds for all of them.

What the code does and a reader might not expect:

* A temporary file that is there already is opened without being truncated. The wallet closed over it opens
  again exactly when what stays behind the new bytes is nothing or whole cipher blocks
  (`WalletSessions.ReopenClosed`). A crash between two writes of a close leaves whole cipher blocks, so crashes
  lose nothing but the session they end (`WalletCrashes.CrashesLoseNothing`). A file that does harm
  (`WalletSessions.LeftoverSpoils`) comes from elsewhere, such as a write cut short or another program.
* Every percentage that the file codec computes is the true one exactly when a hundred times the last whole
  block fits 64 bits (`FileCodec.PercentExact`; `FileCodec.PercentOfHugeFile` is a size that fails). The
  percentages reported increase and stay within 1..100 for every size (`FileCodec.ReportsGrow`).
* Paths that differ in one character share a mapper name in two families and, without a component given, in no
  other case (`MapperNames.NamesOfNeighbours`): UUIDs with an equals sign and a dash behind another `UUID`, such as
  `UUID=UUID=` and `UUID=UUID-` (`MapperNames.TwoVolumesOneName`); and paths whose characters become the same
  byte in Latin-1 above the last path component, such as files of one name in two directories with Cyrillic
  names (`MapperNames.TwoDirectoriesOneName`).
* When one volume is unmounted and another mounted between two wake-ups of the mount monitor, the lists are of
  one length and nothing is reported (`MountMonitor.SwapIsSilent`). A listener is right about the mounted
  volumes exactly as long as no change hides behind the lengths (`MountMonitor.RunFollowed`).
* `lxqt_wallet_read_value_at` at a position equal to the entry count reads its header behind the used bytes
  (`OpenWallet.Wallet.ReadValueAt`).
* The comment at `zuluSafe/zuluwallet.c:106-107` speaks of padding to 16 bytes; the code pads to 32, and the
  model follows the code.
* `lxqt_wallet_create_decrypted_file` reports a wrong password for a file of another major version too.

Run `dafny verify dfyconfig.toml` in this directory to verify everything.

## Model

| member | source | states |
|---|---|---|
| WalletNodes.ParseEncode | zuluSafe/zuluwallet.c:109-127 | Bytes laid out node by node parse to exactly the entries they were made of: the 32-bit lengths read back, keys and values keep their bytes, duplicates and order stay. |
| WalletNodes.EncodeParseAt | zuluSafe/zuluwallet.c:197-201 | Bytes that parse from an offset on are exactly the encoding of their entries: the two directions make the layout a bijection. |
| WalletNodes.EncodedSize | zuluSafe/zuluwallet.c:883-896 | The bytes of the nodes number the sum of 8 + key length + value length. |
| WalletNodes.NodeLayout | zuluSafe/zuluwallet.c:890-893 | A node byte by byte: the key length and the value length in four bytes each, low byte first, then the key, then the value. |
| WalletNodes.FirstKeyPlace | zuluSafe/zuluwallet.c:804-809 | Lookup by key returns the entry at the first place that has the key, removal takes out that place and no other; without the key, nothing is found and nothing changes. |
| WalletNodes.FirstValuePlace | zuluSafe/zuluwallet.c:848-853 | Lookup by value returns the entry at the first place that has the value. |
| WalletNodes.FoundKey | zuluSafe/zuluwallet.c:804-813 | A scan that has passed entries without the key and meets one with it has met the first match, whatever follows. |
| OpenWallet.Wallet.Layout | zuluSafe/zuluwallet.c:74-82 | In every valid wallet the used bytes are the concatenation of the encoded nodes, the size is their total and the count their number. |
| OpenWallet.Wallet.GetHeaderComponents | zuluSafe/zuluwallet.c:197-201 | At a node boundary the two lengths delimit one whole node inside the used bytes, and the offset behind it is again a boundary. |
| OpenWallet.Wallet.FindKey | zuluSafe/zuluwallet.c:990-1020 | The scan stops at a node boundary, the first whose entry has the key, or has passed every entry; the remaining size decreases with every step. |
| OpenWallet.Wallet.ReadKeyValue | zuluSafe/zuluwallet.c:782-818 | Agrees with first-match lookup in the plain sequence. |
| OpenWallet.Wallet.HasKey | zuluSafe/zuluwallet.c:820-824 | True exactly when some entry has the key. |
| OpenWallet.Wallet.HasValue | zuluSafe/zuluwallet.c:826-862 | Agrees with first-match lookup by value. |
| OpenWallet.Wallet.IterReadValue | zuluSafe/zuluwallet.c:909-932 | From a boundary, yields the entry there and moves to the next boundary; at the end returns false and leaves the iterator alone. |
| OpenWallet.Wallet.Iterate | zuluSafe/zuluwallet.c:909-932 | A fresh iterator meets every entry exactly once, in order, and then stops. |
| OpenWallet.Wallet.ReadValueAt | zuluSafe/zuluwallet.c:934-968 | For a position below the count, the entry that the iterator meets there; beyond the count or in an empty wallet, nothing; for a position equal to the count, which the guard lets pass, the header is read at the end of the used bytes. |
| OpenWallet.Wallet.AddKey | zuluSafe/zuluwallet.c:864-907 | Appends the pair to the plain sequence, sets the flag and keeps the layout; an empty key or a block too large changes nothing and names its error. |
| OpenWallet.Wallet.Compact | zuluSafe/zuluwallet.c:1006-1008 | Moving the tail over a block keeps the bytes before it and the tail's bytes in order, zeroes the bytes vacated and leaves the rest of the buffer. |
| OpenWallet.Wallet.RemoveBlock | zuluSafe/zuluwallet.c:1004-1012 | Taking out one node of several leaves exactly the entries before and behind it, laid out without a gap. |
| OpenWallet.Wallet.RemoveOnly | zuluSafe/zuluwallet.c:996-1002 | The branch for a single entry clears the bytes in use and ends in the empty wallet. |
| OpenWallet.Wallet.DeleteKey | zuluSafe/zuluwallet.c:970-1024 | Removes the first match of the plain sequence and nothing else; an absent key changes no byte; the bytes given up are zero in both branches. |
| OpenWallet.Wallet.ChangePassword | zuluSafe/zuluwallet.c:433-450 | The key becomes the one derived from the new password and the same salt; the entries stay, the flag is set. |
| WalletFile.HeaderReadsBack | zuluSafe/zuluwallet.c:1313-1356 | Every header written is recognised, has a compatible version, and gives back its 64-bit size and count, whatever the three bytes behind the version hold. |
| WalletFile.HeaderLayout | zuluSafe/zuluwallet.c:1313-1356 | Byte by byte: the text lxqt_wallet, the version 200, three bytes of fill, the size and the count. |
| WalletFile.ImageLayout | zuluSafe/zuluwallet.c:1145-1148 | Salt, vector, then one chained encryption of everything else. |
| WalletFile.Create | zuluSafe/zuluwallet.c:275-334 | Makes the image of the empty header under the derived key, and refuses without change when the wallet is there already. |
| WalletFile.OpenHandle | zuluSafe/zuluwallet.c:469-513 | Derives the key from the stored salt, decrypts the header under the stored vector and leaves the chaining value for the load. |
| WalletFile.Open | zuluSafe/zuluwallet.c:681-748 | Each outcome by its condition: no file, wrong magic string, other version, empty load, load too large, partial cipher block, or the decrypted load with the header's size and count; a file shorter than its header is refused with one of three errors, for whatever the bytes not read hold. |
| WalletFile.OpenOutcomes | zuluSafe/zuluwallet.c:697-748 | Each refusal and the success, if and only if: the decrypted header lacks the text; it has the text and no version from 200 to 299; the load is too large; it is no whole number of cipher blocks; none of these. |
| WalletFile.OpenedHolds | zuluSafe/zuluwallet.c:709-742 | A wallet that opens holds what decrypting everything behind the vector in one piece gives, and the size and count in it. |
| WalletFile.PaddedSize | zuluSafe/zuluwallet.c:1131-1133 | The loop finds the least multiple of 32 not below the size. |
| WalletFile.CloseLoad | zuluSafe/zuluwallet.c:1116-1139 | The second cipher call continues the chaining of the first over the nodes and their padding. |
| WalletFile.Close | zuluSafe/zuluwallet.c:1054-1160 | An unmodified wallet writes nothing; a modified one replaces the file by one chained encryption of header, nodes and padding, over what an old temporary file holds. |
| Cbc.EncryptAppend | zuluSafe/zuluwallet.c:1107-1139 | Encrypting in two calls that chain equals encrypting in one, at every block boundary. |
| Cbc.DecryptAppend | zuluSafe/zuluwallet.c:511-729 | The same for decrypting. |
| Cbc.DecryptEncrypt | zuluSafe/zuluwallet.c:106-107 | Chained decryption undoes chained encryption for every key, vector and message of whole blocks. |
| Cbc.CipherBlock | zuluSafe/zuluwallet.c:1082-1082 | Every cipher block is the encryption of its plain block under exclusive or with the cipher block before it, the first with the vector. |
| Cbc.PlainBlock | zuluSafe/zuluwallet.c:481-481 | Every plain block is the decryption of its cipher block under exclusive or with the cipher block before it. |
| Cbc.XorBlockBit | zuluSafe/zuluwallet.c:242-242 | Every bit of every byte in that exclusive or is set exactly when the two bits differ. |
| WalletSessions.ApplyAllSound | zuluSafe/zuluwallet.c:864-1024 | After any calls the entries are those of the plain sequence, the key is that of the last password, and the flag says whether some call changed the wallet; with the flag still clear, the wallet is exactly what was opened. |
| WalletSessions.ReopenClosed | zuluSafe/zuluwallet.c:1054-1160 | A closed wallet opens again to its own entries, count, size and salt for every vector, fill and padding, exactly when the old temporary file leaves no part of a cipher block; otherwise opening is refused. |
| WalletSessions.LeftoverSpoils | zuluSafe/zuluwallet.c:1118-1127 | A concrete old temporary file, 65 bytes over an emptied wallet, after which the wallet does not open. |
| WalletSessions.CreatedStores | zuluSafe/zuluwallet.c:275-334 | A created wallet opens under its password, to no entries. |
| WalletSessions.SessionKeeps | zuluSafe/zuluwallet.c:681-1160 | One session of any calls takes a file that stores some entries to one that stores the outcome of the calls, under the password they leave, unless the closing writes over a harmful old temporary file; then the next opening is refused. |
| WalletSessions.LifeKeeps | zuluSafe/zuluwallet.c:681-1160 | Over any number of sessions, each opened with the current password: all open and the last file stores what all calls together make of the plain sequence, exactly when no session that writes meets a harmful old temporary file. |
| WalletSessions.LeftoversHarmless | zuluSafe/zuluwallet.c:1118-1152 | Old temporary files of whole cipher blocks, that a wallet file may hold, trouble no session of any life. |
| WalletSessions.NoLeftovers | zuluSafe/zuluwallet.c:1118-1152 | In particular, lives without old temporary files are untroubled. |
| WalletSessions.LifeFromCreation | zuluSafe/zuluwallet.c:275-1160 | The same from the creation of the wallet on. |
| WalletSessions.Perform | zuluSafe/zuluwallet.c:782-1024 | The operations, called one after the other on the buffer, keep it valid and refine the sequence of states. |
| WalletSessions.CloseAfter | zuluSafe/zuluwallet.c:1054-1160 | Closing the real buffer leaves exactly the file that its state and the session stand for. |
| WalletSessions.UseWallet | zuluSafe/zuluwallet.c:681-1160 | Opening, using and closing the real buffer leaves exactly the file of the session. |
| WalletCrashes.WriteUntil | zuluSafe/zuluwallet.c:1145-1148 | The writes of a close, stopped behind any number of them, leave the same front of the image over what the old temporary file holds. |
| WalletCrashes.CloseInterrupted | zuluSafe/zuluwallet.c:1054-1152 | Closing the real buffer, interrupted before the renaming, leaves the wallet file alone; a modified wallet leaves a front of its image over the old temporary file. |
| WalletCrashes.CrashLeavesWholeBlocks | zuluSafe/zuluwallet.c:1118-1152 | Behind every write, what lies in the temporary file is again whole cipher blocks, if it was so before. |
| WalletCrashes.RunKeeps | zuluSafe/zuluwallet.c:681-1160 | One run, completed or crashed, over whole blocks left by earlier crashes: it opens, and the wallet file then stores the outcome of its calls, or, crashed, what it stored before. |
| WalletCrashes.CrashesLoseNothing | zuluSafe/zuluwallet.c:681-1160 | Over any number of runs, each over the temporary file that those before it left: every run opens, and the last wallet file stores, under the password of the last completed close, what the calls of the completed runs make of the plain sequence. No condition on the crashes. |
| WalletCrashes.CrashesLoseNothingFromCreation | zuluSafe/zuluwallet.c:275-1160 | The same from the creation of the wallet on. |
| WalletCrashes.UseWalletUntil | zuluSafe/zuluwallet.c:681-1160 | Opening and using the real buffer, and closing it or crashing in the close, leaves exactly the wallet file and the temporary file of the run. |
| FileCodec.CreateEncryptedFile | zuluSafe/zuluwallet.c:336-431 | The destination is the image of the header with the full size and of the source padded to whole 1024-byte blocks; at a cancelling report it stops there; the destination is left alone when it exists and left empty without a source. |
| FileCodec.EncryptBlocks | zuluSafe/zuluwallet.c:401-423 | Every 1024-byte call carries on the chaining of the calls before, also over the stale tail of the buffer behind a short read. |
| FileCodec.FileHeaderLayout | zuluSafe/zuluwallet.c:388-392 | The header of an encrypted file byte by byte: the text, the version, zeros, the size, zeros. |
| FileCodec.CreateDecryptedFile | zuluSafe/zuluwallet.c:515-616 | The new file has the size in the header and starts with the decryption of the load, as far as the old file holds whole blocks of it and up to a block behind a cancelling report: all of it for a whole file without cancelling. What a cancelled run writes behind that block is the memory beyond the buffer. A wrong password or version makes no file. |
| FileCodec.UnlockedExactly | zuluSafe/zuluwallet.c:564-574 | Refused exactly when the decrypted header lacks the text or a version from 200 to 299; otherwise the size is the one in its bytes. |
| FileCodec.DecryptBlocks | zuluSafe/zuluwallet.c:578-596 | After each whole block the output is the decryption of the text consumed and the handle holds its chaining value; behind the end of a cut file the output keeps its start. |
| FileCodec.DecryptRest | zuluSafe/zuluwallet.c:598-604 | One more buffer is decrypted, which completes the file to its size; when more is left, the rest comes from beyond the buffer. |
| FileCodec.BeyondOnlyCancelled | zuluSafe/zuluwallet.c:587-604 | More than a buffer is left behind the loop exactly when the callback cancelled with more than a block to go; only then are bytes from beyond the buffer written. |
| FileCodec.DecryptUndoesEncrypt | zuluSafe/zuluwallet.c:387-604 | For every length, key, salt, vector and padding, decrypting an encrypted file gives the original bytes. |
| FileCodec.ThereAndBack | zuluSafe/zuluwallet.c:336-616 | The two operations, run one after the other with callbacks that never cancel, return the source, with the same reports in both directions, at most 101 and ending in 100. |
| FileCodec.ReportsGrow | zuluSafe/zuluwallet.c:415-422 | For every size, wrap-around included, the reports in the loop increase strictly within 1..100, so there are at most a hundred. |
| FileCodec.ReportsAre | zuluSafe/zuluwallet.c:415-422 | The reports are the percentages that some block is the first to reach, and no others. |
| FileCodec.PercentExact | zuluSafe/zuluwallet.c:586-589 | Every percentage that the loops compute on 64 bits is the true one exactly when a hundred times the last whole block fits 64 bits. |
| FileCodec.PercentOfHugeFile | zuluSafe/zuluwallet.c:589-589 | A size at which the loops compute 2 half way through the file. |
| FileCodec.LastReport | zuluSafe/zuluwallet.c:587-595 | Under that condition the last report is always the percentage reached. |
| ZuluSafe.AddFile | zuluSafe/zuluSafe.c:249-286 | Adds the file's bytes under its base name unless the name is kept already or the file is missing, mapped or not; the result is 0 exactly when an entry was added. |
| ZuluSafe.DeleteFile | zuluSafe/zuluSafe.c:288-293 | Removes the entry of the base name. |
| ZuluSafe.AddAllFiles | zuluSafe/zuluSafe.c:338-357 | Amounts to adding the regular files of the directory one after the other, in the order read. |
| ZuluSafe.GetFile | zuluSafe/zuluSafe.c:295-323 | Makes the file with the bytes kept exactly when the name is kept, the path is free and can be made. |
| ZuluSafe.GetAllFiles | zuluSafe/zuluSafe.c:325-336 | For all wallets whose keys are C strings: the files made are those whose path some key shows, is free, can be made and finds an entry by its base name, with that entry's value; no existing file changes. When the keys are file names that is the kept map restricted to such paths. |
| ZuluSafe.ListFiles | zuluSafe/zuluSafe.c:204-215 | Lists every key, as a C string, in order; when the keys are file names, those names. |
| ZuluSafe.NamedAreTerminated | zuluSafe/zuluSafe.c:44-44 | Keys that the client stores are C strings, so its wallets meet what taking out and listing ask for. |
| ZuluSafe.FileNameOfName | zuluSafe/zuluSafe.c:217-225 | A base name is its own base name, so the fallback for files that cannot be mapped stores under the same key. |
| ZuluSafe.FileNameInDirectory | zuluSafe/zuluSafe.c:217-225 | A file in any directory goes by its own name. |
| ZuluSafe.CStringOfKey | zuluSafe/zuluSafe.c:332-332 | A stored key, used as a C string, is the name it was stored for. |
| ZuluSafe.KeptLookup | zuluSafe/zuluSafe.c:303-303 | Looking a name up in the entries is looking it up in the map of kept files. |
| ZuluSafe.StepKeepsMap | zuluSafe/zuluSafe.c:249-293 | Every command keeps the keys distinct file names and does to the entries what it does to a map; a command without memory changes nothing. |
| ZuluSafe.RunKeepsMap | zuluSafe/zuluSafe.c:249-357 | Every run of commands keeps keys pairwise distinct, and its entries are the map that the same commands make. |
| ZuluSafe.AllFilesKept | zuluSafe/zuluSafe.c:338-357 | Adding a directory leaves what the map holds and adds, under its own name, every name read that is a regular file and not held yet. |
| ZuluSafe.KeptApart | zuluSafe/zuluSafe.c:249-286 | Files of different names, in any directories, are kept side by side, each under its name and terminator. |
| ZuluSafe.SameNameRefused | zuluSafe/zuluSafe.c:258-260 | A second file of one name, in whatever directory, is not added. |
| ZuluSafe.AddedComesBack | zuluSafe/zuluSafe.c:249-323 | A file that was added comes back byte for byte, whatever else happens until its name is deleted; its size must fit 32 bits. |
| ZuluSafe.DeletedIsGone | zuluSafe/zuluSafe.c:288-293 | A deleted name is absent until a file is added under it. |
| ClientLives.SessionsAreSteps | zuluSafe/zuluSafe.c:406-433 | The wallet calls of any runs of the client amount to the client's steps on the entries. |
| ClientLives.StepsAreCalls | zuluSafe/zuluSafe.c:249-357 | The wallet calls that the commands make leave the very state of the commands, flag and key included. |
| ClientLives.ClientLife | zuluSafe/zuluSafe.c:406-433 | From creation on, through any runs of the client: the entries are a map, the one the same commands make on a plain map, and the wallet file opens to them exactly when no run that writes meets a harmful old temporary file. |
| ClientLives.Dispatch | zuluSafe/zuluSafe.c:409-429 | Each branch on an open wallet leaves the state of its steps, and changes files only when it gets some. |
| ClientLives.RunClient | zuluSafe/zuluSafe.c:406-433 | One run of the client, opening, carrying out a command and closing, leaves exactly the file of the session that the command stands for. |
| ClientLives.RoomBySize | zuluSafe/zuluSafe.c:238-244 | Memory lasts for a whole run when all its files together fit. |
| ClientLives.EachCommand | zuluSafe/zuluSafe.c:409-429 | Adding and deleting dir/name change the map of kept files at name, as adding and deleting do; every other command leaves it. |
| ClientLives.AddAllKeeps | zuluSafe/zuluSafe.c:338-357 | After adding a directory a name is kept exactly when it was before or is one of its regular files, with the bytes of that file. |
| CrcTable.EntryIsEightShifts | external_libraries/tcplay/crc32.c:44-88 | Each of the 256 table entries is eight steps of the division by 0xEDB88320. |
| CrcTable.TableIsFeedback | external_libraries/tcplay/crc32.c:44-88 | The table is the feedback table that the loop needs. |
| Crc32.IntermediateIsFeed | external_libraries/tcplay/crc32.c:105-109 | One table step is feeding the eight bits of the byte. |
| Crc32.Crc32 | external_libraries/tcplay/crc32.c:90-103 | The loop over a feedback table computes bit-at-a-time division for every byte string. |
| Crc32.CrcOf | external_libraries/tcplay/crc32.c:90-103 | So does the loop over the program's own table; nothing has the CRC 0. |
| CrcDetects.CrcOfNothing | external_libraries/tcplay/crc32.c:97-102 | The CRC of no bytes is 0. |
| CrcDetects.CheckValue | external_libraries/tcplay/crc32.c:90-103 | The CRC of the digits 1 to 9 is 0xCBF43926. |
| CrcDetects.LeadingZeroSeen | external_libraries/tcplay/crc32.c:97-102 | A zero byte in front changes the CRC of every message. |
| Crc32.FeedInjectiveInBits | external_libraries/tcplay/crc32.c:99-100 | From one register state, two bit strings of the same length up to 32 that lead to one state are equal. |
| LinearRegister.StepsLinear | external_libraries/tcplay/crc32.c:99-100 | Any number of steps is linear over exclusive or. |
| LinearRegister.FeedInjective | external_libraries/tcplay/crc32.c:99-100 | Feeding the same bits keeps different states different. |
| CrcDetects.FoldIsFeed | external_libraries/tcplay/crc32.c:105-109 | Folding the table step over a message is feeding all its bits. |
| CrcDetects.Resume | external_libraries/tcplay/crc32.c:90-109 | The CRC of a concatenation is computed by resuming from the CRC of its front. |
| CrcDetects.BurstDetected | external_libraries/tcplay/crc32.c:99-102 | Two different messages whose bits agree outside 32 consecutive bits have different CRCs. |
| CrcDetects.FourByteWindowDetected | external_libraries/tcplay/crc32.c:99-102 | Two different messages that agree outside four consecutive bytes have different CRCs, whatever surrounds the window. |
| CrcDetects.Residue | external_libraries/tcplay/crc32.c:90-103 | A message followed by its own CRC, low byte first, always has the CRC 0x2144DF1C. |
| PathHash.OctetInjective | zuluCrypt-gui/utility.cpp:1316-1343 | Different Latin-1 characters are hashed as different bytes. |
| PathHash.OctetValue | zuluCrypt-gui/utility.cpp:1316-1343 | A Latin-1 character is hashed as the byte of its own number, any other as a question mark. |
| PathHash.ExtendValue | zuluCrypt-gui/utility.cpp:1343-1343 | The byte enters the sum as a signed number modulo 2^32. |
| PathHash.HashOfNothing | zuluCrypt-gui/utility.cpp:1333-1357 | The hash of no characters is 0. |
| PathHash.HashOfA | zuluCrypt-gui/utility.cpp:1333-1357 | The hash of "a" is 0xCA2E9442. |
| PathHash.HashOfDevice | zuluCrypt-gui/utility.cpp:1333-1357 | The hash of /dev/sda1 is 0x00FBB489. |
| PathHash.RoundBijective | zuluCrypt-gui/utility.cpp:1341-1348 | A turn of the loop is a bijection of the 32-bit states for each byte, and gives its byte back. |
| PathHash.FinishBijective | zuluCrypt-gui/utility.cpp:1350-1354 | The final mix is a bijection of the 32-bit states. |
| PathHash.HashPath | zuluCrypt-gui/utility.cpp:1333-1357 | The loop computes the hash that the lemmas are about. |
| PathHash.HashOfNeighbours | zuluCrypt-gui/utility.cpp:1333-1357 | Two paths of one length that differ in one character hash alike exactly when the two characters become the same byte. |
| PathHash.SharedOctet | zuluCrypt-gui/utility.cpp:1316-1322 | That is: exactly when each of the two lies outside Latin-1 or is the question mark. |
| PathHash.OneByteChangesHash | zuluCrypt-gui/utility.cpp:1333-1357 | In Latin-1, two paths that differ in one byte never hash alike. |
| MapperPath.NumberOfDigits | zuluCrypt-gui/utility.cpp:1356-1356 | Printed numbers read back, so different hashes print differently. |
| MapperPath.NoZeroInFront | zuluCrypt-gui/utility.cpp:1356-1356 | No number is printed with zeros in front. |
| MapperPath.SpecialsAre | zuluCrypt-cli/bin/bash_special_chars.h:26-26 | The characters replaced are the terminator, the line feed and all printable ASCII but digits, letters and six others. |
| MapperPath.CleanInPlace | zuluCrypt-gui/utility.cpp:1326-1329 | The replacements one special character after the other amount to replacing them all at once. |
| MapperPath.MapperPath | zuluCrypt-gui/utility.cpp:1304-1331 | The edits of the two strings build the name that the lemmas are about, in all three branches. |
| MapperNames.ReplacedAt | zuluCrypt-gui/utility.cpp:1314-1314 | The replacement turns an equals sign behind UUID into a dash and changes nothing else. |
| MapperNames.NameParts | zuluCrypt-gui/utility.cpp:1316-1329 | Every name is its cleaned stem, a dash and the printed hash, and the hash holds no dash. |
| MapperNames.NameOfDevice | zuluCrypt-gui/utility.cpp:1304-1331 | Every path dir/name whose name has no special character is named by the fixed front, the user, the component or NAAN, name and the hash of the whole path. |
| MapperNames.NameOfPartition | zuluCrypt-gui/utility.cpp:1304-1331 | The name of /dev/sda1 for user 1000, letter by letter. |
| VolumeStatus.NameOfUuid | zuluCrypt-gui/utility.cpp:1310-1314 | The name of UUID="X" for every X that the naming leaves as it is. |
| MapperNames.NamesDetermine | zuluCrypt-gui/utility.cpp:1304-1331 | Equal names have equal cleaned stems and equal hashes. |
| MapperNames.NamesOfNeighbours | zuluCrypt-gui/utility.cpp:1304-1357 | Two paths that differ in one character share a name exactly when both are UUIDs and the characters are an equals sign and a dash behind another UUID; or neither is a UUID, the characters become the same byte, and the last component begins behind them; or a component is given, only one is a UUID, and what the two names show and hash coincides. |
| MapperNames.TwoVolumesOneName | zuluCrypt-gui/utility.cpp:1310-1316 | Two different paths with one name. |
| MapperNames.TwoDirectoriesOneName | zuluCrypt-gui/utility.cpp:1316-1322 | Two files of one name in different directories, outside Latin-1, with one name. |
| VolumeStatus.EditString.LastIndexOfChar | zuluCrypt-cli/utility/string/String.c:488-508 | The backward scan finds the last place of the character, and never looks at the first place. |
| VolumeStatus.DeviceName | zuluMount-cli/volume_status.c:302-318 | The edits in place leave the text between the mark and the last dash, in quotes; without a mark, the device name. |
| VolumeStatus.NoMarkNamesDevice | zuluMount-cli/volume_status.c:317-319 | Without the mark anywhere in the name, the device is named. |
| VolumeStatus.MarkNamesUuid | zuluMount-cli/volume_status.c:302-316 | With it, what stands between the first mark and the last dash behind it is named, in quotes. |
| VolumeStatus.MarkWithoutDash | zuluMount-cli/volume_status.c:302-312 | Without a dash behind the mark, all that follows is named, and the quotes stay open. |
| VolumeStatus.MarkIsFirst | zuluMount-cli/volume_status.c:302-307 | In every name printed for a UUID the first mark is the one behind the user, whatever follows. |
| VolumeStatus.UuidComesBack | zuluMount-cli/volume_status.c:302-316 | Printing the name of UUID="X" and parsing it back gives UUID="X" exactly when X has no quote, no other special character and no UUID=; dashes are welcome. |
| VolumeStatus.SecondUuidIsLost | zuluMount-cli/volume_status.c:302-316 | A concrete UUID that holds UUID=, which does not come back. |
| LvmPath.ConvertLvmPath | zuluMount-gui/zulumounttask.cpp:30-64 | The first single dash becomes a slash and runs of dashes shrink to one; without a single dash the path stays as it is. |
| LvmPath.Collapse | zuluMount-gui/zulumounttask.cpp:54-57 | The replacing loop ends, leaves no double dash and gives each run one dash. |
| LvmPath.RunShrinks | zuluMount-gui/zulumounttask.cpp:54-57 | A run of dashes of any length, anywhere, becomes one dash, and what is around it is treated on its own. |
| LvmPath.FirstDash | zuluMount-gui/zulumounttask.cpp:42-52 | A first dash that stands alone behind at least two characters becomes the slash. |
| LvmPath.EarlyDashStays | zuluMount-gui/zulumounttask.cpp:42-48 | A dash among the first two characters is not looked at. |
| LvmPath.OnlyTheJoint | zuluMount-gui/zulumounttask.cpp:42-48 | In an encoded path no dash but the joint can look single. |
| LvmPath.DecodeUndoesEncode | zuluMount-gui/zulumounttask.cpp:30-64 | Decoding gives /dev/group/volume back exactly when neither name has two dashes together, the group ends in none, and the volume starts with none and is not empty. |
| LvmPath.DoubleDashIsLost | zuluMount-gui/zulumounttask.cpp:54-57 | A concrete group with two dashes together, which does not come back. |
| VolumeOffset.Offset | zuluCrypt-gui/createvolumeinexistingfile.cpp:35-48 | The loop finds the least multiple of the unit not below the size, and prints its quotient. |
| VolumeOffset.LargestUnit | zuluCrypt-gui/createvolumeinexistingfile.cpp:50-66 | The unit is the largest of 1, 2^10, 2^20 and 2^30 that does not exceed the size. |
| VolumeOffset.LettersMean | zuluCrypt-gui/createvolumeinexistingfile.cpp:50-66 | The letters b, k, m and g behind a number stand for these units. |
| VolumeOffset.VolumeOffset | zuluCrypt-gui/createvolumeinexistingfile.cpp:50-66 | In every branch the printed number times its unit is the offset, the least multiple behind the cover file. |
| VolumeOffset.CoverFile.Resize | zuluCrypt-gui/createvolumeinexistingfile.cpp:95-140 | The old bytes stay; the bytes appended are the random ones, as many chunks as the need takes, and at least one. |
| VolumeOffset.LeastChunks | zuluCrypt-gui/createvolumeinexistingfile.cpp:107-134 | That is the least number of whole chunks that covers the need, and at least one. |
| VolumeOffset.HiddenVolumeFits | zuluCrypt-gui/createvolumeinexistingfile.cpp:101-134 | The hidden volume lies wholly in appended bytes, and less than a chunk is too much exactly when something was missing. |
| MountMonitor.Unmountings | zuluMount-gui/monitor_mountinfo.cpp:116-122 | The loop reports the volumes of the old list that the new one lacks, in order. |
| MountMonitor.Mountings | zuluMount-gui/monitor_mountinfo.cpp:126-132 | The loop reports the volumes of the new list that the old one lacks, in order. |
| MountMonitor.GoneInOrder | zuluMount-gui/monitor_mountinfo.cpp:116-122 | Each volume of the old list that the new one lacks is reported at its own place in the list. |
| MountMonitor.ComeInOrder | zuluMount-gui/monitor_mountinfo.cpp:126-132 | The same for the new list. |
| MountMonitor.ReportedOften | zuluMount-gui/monitor_mountinfo.cpp:114-138 | A volume is reported exactly as often as its list has it, and nothing else is. |
| MountMonitor.Monitor.Wake | zuluMount-gui/monitor_mountinfo.cpp:110-141 | One wake-up reports one direction of the change and remembers the new list. |
| MountMonitor.Monitor.Run | zuluMount-gui/monitor_mountinfo.cpp:103-142 | The loop reports every list against the one before it. |
| MountMonitor.ExactForAllLists | zuluMount-gui/monitor_mountinfo.cpp:114-138 | For all lists, duplicates included: when exactly a wake-up reports the symmetric difference. |
| MountMonitor.ExactWhenNested | zuluMount-gui/monitor_mountinfo.cpp:114-138 | For lists without duplicates: exactly when one holds all of the other; the silent branch then loses nothing. |
| MountMonitor.FollowedStep | zuluMount-gui/monitor_mountinfo.cpp:114-140 | For all lists, duplicates included: a listener who knows the old list knows the new one after the report exactly when nothing changed in the direction that the lengths hide. |
| MountMonitor.SwapIsSilent | zuluMount-gui/monitor_mountinfo.cpp:114-138 | One volume swapped for another: nothing is reported, and the listener is wrong. |
| MountMonitor.RunFollowed | zuluMount-gui/monitor_mountinfo.cpp:103-142 | Over every run, following the reports gives the current list after every wake-up exactly when no step has a change out of sight. |
| MountMonitor.NestedRunFollowed | zuluMount-gui/monitor_mountinfo.cpp:103-142 | Over runs without duplicates that is: exactly when each list is nested with the one before. |

## Left out

- FileCodec.CreateDecryptedFile: of a file shorter than its 64 bytes of head only the two possible outcomes are stated. Nothing is promised about the bytes written behind the end of a cut file, which are stale in the buffer. The memory beyond the buffer, written after a cancelling report, is a parameter.
- Crc32.Crc32: the table is a parameter required to be the feedback table; the program's table, laid out in sixteen rows, is proved to be one.
- PathHash.HashPath: char is taken to be signed, as on x86-64; a character that Latin-1 cannot hold becomes a question mark, one of the two things Qt may do with it, and a string is a sequence of characters where Qt's is one of UTF-16 units.
- LvmPath.ConvertLvmPath: the conversions to Latin-1 and back are not modelled; the decoder works on the characters.
- ZuluSafe.AddFile: a path that names a directory or a device is not modelled; files are regular and read whole. Bytes of a file beyond a multiple of 2^32 are cut as the code cuts them.
- ZuluSafe.GetAllFiles: requires keys that hold a terminator, as C strings do; the code reads on behind a key that holds none, which the client never stores.
- The cipher, the hash and the key derivation: abstract; the cipher is required to be invertible on blocks, the derivation is a function. Nothing is claimed about a wrong password.
- Null arguments, failing gcrypt calls, failing open, rename and mlock, short writes, and crashes in the middle of a write: not modelled. realloc fails for blocks above the largest the allocator can give, taken to be 2^63 - 32 bytes, and for no other.
- Integer widths: sizes are 64-bit where the code computes with them (percentage, stored lengths, the load length on opening); node lengths are added in 64 bits as size_t is on x86-64.
- Wiping and freeing of buffers on closing, deletion of wallets, wallet directories, lxqt_wallet_wallet_list and lxqt_wallet_volume_version.
- Prompts, password entry, printed messages and argument parsing of the client; that a created wallet's two passwords agree.
- Truncation of mapper and wallet paths at PATH_MAX, except where the client joins a directory and a name.
- The announcements of gotEvent, and the tasks that look up a volume's properties after a report.
- The progress of growing the cover file, failed writes and the formatting of the hidden volume.
- zuluCrypt-cli/lib/create_mapper_name.c, which builds names by the same scheme on the command line side.
- Everything graphical, favourites, settings, plugins, mounting, privileges and the external crypto device.
