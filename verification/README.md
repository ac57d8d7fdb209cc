# A verified model of the Azure provider for the Secrets Store CSI Driver

The provider fetches secrets, keys and certificates from Azure Key Vault and hands them to the
Secrets Store CSI driver as files. This project models its logic in Dafny and proves what that logic
guarantees, for every input, every vault content and every run. `dafny verify dfyconfig.toml` checks
all of it.

## What is modelled

- **Certificate chains** (`ParentGraph`, `CertChain`, `ChainTheorems`). A PKCS#12 bundle is reordered
  into leaf, intermediates, root by linking heap nodes through Authority and Subject Key Identifiers
  (sections 4.2.1.1 and 4.2.1.2 of RFC 5280), picking the first node that is nobody's parent and
  walking the parent pointers under a step counter. The code is a class with mutable links and loops;
  it is proved to compute `ChainText`, and the theorems say when a bundle is reordered, when each error
  is reported, what is conserved, and exactly when the order of the input does not matter.
- **PEM, base64, hexadecimal, base32** (`Pem`, `PemTheorems`, `PemInText`, `Base64`, `Hex`,
  `Base32Hex`). PEM text (RFC 7468) is modelled as Go's `encoding/pem` reads it up to release 1.25.1, with preamble, false
  starts, headers and wrapped base64 (section 4 of RFC 4648), so that the round trips and the chain
  theorems hold for the texts. Blocks with headers are covered; the only blocks that do not survive
  being read and written again are characterised exactly.
- **PKCS#12 conversion and separate files** (`Secrets`, `BundleTheorems`), up to which blocks are found in
  the text that is written, and in which order.
- **Version history** (`VersionHistory`, `VersionTheorems`). Paged listing, filter, in-place sort, start
  search, bounded window, numbered names. Go's sort is not stable; the theorems hold for every
  descending permutation it may produce.
- **Names, validation, contents, permissions** (`Paths`, `Objects`) and the **emit loops** (`Mount`,
  `MountTheorems`, `ContentTheorems`), up to what a reader finds in a file; and exactly when no two
  files of a mount can share a path (`DistinctTheorems`).
- **The process environment** (`ProcessEnvironment`): variables borrowed and given back; and
  **concurrent mounts** writing and reading one variable (`SharedRegister`), as a state machine over all
  interleavings.
- **Credential selection** (`Auth`), the **TLS server name** (`ServerName`), and the **whole call**
  (`Entry`).

Content (`string` and `[]byte` in Go) is a Dafny string whose characters stand for bytes; configuration
text is a sequence of code points. Cryptography and the vault are function-valued parameters, so every
result holds for every implementation of them. A failed call is a `Result` or an `Option`.

Where the code and its documentation differ, the code is followed:

- The history limit is tested after a version has been added, so up to N + 1 versions come back
  (pkg/provider/provider.go:385-389), where website/content/en/configurations/sync-multiple-versions.md:70
  says N. `VersionTheorems.HistoryOfTwo` is a list of three of which all are synced, and
  `VersionTheorems.DocumentedCountIff` says exactly when the documented number is respected.
- The comment at pkg/provider/provider.go:331 says that the file permission was validated. It was not:
  `Objects.BadPermissionIsAccepted` is an accepted object with permission "0888" whose file gets mode
  zero, and `Objects.PermissionIsNotValidated` says exactly which permissions lead to the ignored error.
- PFX for other types than secrets is refused only in lower case (pkg/provider/validate.go:33); see
  `Objects.UpperCaseFormatIsAccepted` for an object and `Objects.FormatAcceptedIff` for all of them.
- A subject alternative name whose prefix and suffix share their dot makes the slice bounds cross
  (internal/identitybinding/identitybinding.go:171-172); `ServerName.CrossedIffOverlap` shows that it is
  the only such name.
- Reordering a chain a second time can fail; see `ChainTheorems.RerunCanFail` for a bundle.
  `ChainTheorems.FixedPointIff` says exactly when; in all other cases an output is returned byte for
  byte, and it is never reordered differently.
- Nothing keeps two configured objects from writing the same path. `DistinctTheorems.SuffixClash` is an
  accepted pair that does so when separate files are asked for, and not otherwise;
  `DistinctTheorems.DistinctInEveryVaultIff` is the exact condition for every setting of the provider.

## Model

| member | source | states |
|---|---|---|
| `ParentGraph.CounterIsExact` | pkg/provider/provider.go:809-819 | being on a node after as many steps as there are nodes means the walk never ends, and only then (pigeonhole) |
| `ParentGraph.FullWalkIffHamiltonian` | pkg/provider/provider.go:795-825 | the walk from the first leaf covers every node and ends, if and only if the parent map is one Hamiltonian path, which it then visits in order |
| `ParentGraph.NoLeafIffAllCycles` | pkg/provider/provider.go:795-807 | every node is a parent if and only if every node lies on a cycle; the parent map is then a bijection |
| `CertChain.ParseBundle` | pkg/provider/provider.go:745-767 | reads all blocks of the text as certificates, or fails at the first that does not parse |
| `CertChain.LinkNode` | pkg/provider/provider.go:774-792 | the inner loop links a node to the first other node that could have issued it and leaves all other links alone |
| `CertChain.LinkNodes` | pkg/provider/provider.go:773-793 | afterwards parent pointers and flags of all nodes are exactly the parent map |
| `CertChain.FindLeaf` | pkg/provider/provider.go:795-807 | finds the first node that is nobody's parent, or reports that there is none |
| `CertChain.WalkParents` | pkg/provider/provider.go:809-819 | the counted walk returns the certificates along the parent path, or the cycle error exactly when it is still on a node after all steps |
| `CertChain.OrderNodes` | pkg/provider/provider.go:795-834 | the linked nodes give the reordered text, the original text or an error, as the parent map demands |
| `CertChain.EncodeChain` | pkg/provider/provider.go:827-833 | the text of the chain is one CERTIFICATE block for each certificate, in order |
| `CertChain.FetchCertChains` | pkg/provider/provider.go:738-835 | the whole function computes `ChainText` |
| `ChainTheorems.IssuesIff` | pkg/provider/provider.go:780-787 | one certificate may have issued another if and only if the identifiers are present and equal, or one is absent and the other present but empty |
| `ChainTheorems.ParentIff` | pkg/provider/provider.go:773-792 | the parent of a certificate is the first other one that may have issued it |
| `ChainTheorems.TrustChainIsFound` | pkg/provider/provider.go:738-835 | the certificates of a chain of trust, defined by their key identifiers alone, are put from leaf to root whatever order they come in, also with a self-signed root |
| `ChainTheorems.TrustChainText` | pkg/provider/provider.go:738-835 | a text that holds them in any order becomes the text of the chain |
| `ChainTheorems.ReorderedIffHamiltonian` | pkg/provider/provider.go:773-825 | a bundle is reordered if and only if the first-match parent relation over all its certificates is a single Hamiltonian path, and the order is that path |
| `ChainTheorems.NoLeafIffOnlyCycles` | pkg/provider/provider.go:805-807 | "no leaf found" if and only if every certificate lies on a parent cycle (so for no certificates), the parent map being a bijection |
| `ChainTheorems.CycleIffWalkNeverEnds` | pkg/provider/provider.go:809-816 | "resulted in cycle" if and only if the parent path from the chosen leaf never ends |
| `ChainTheorems.TwoLeavesNeverReordered` | pkg/provider/provider.go:796-803 | with two non-parents the text is returned as it came or rejected because of a cycle |
| `ChainTheorems.ChainConservesAndOrders` | pkg/provider/provider.go:809-834 | a reordered chain is a permutation; each AKI is the next SKI; the first is nobody's parent; nothing in the bundle could have issued the last |
| `ChainTheorems.OrderIndependentIffUnambiguous` | pkg/provider/provider.go:738-835 | for a reordered bundle, every input order gives the same chain if and only if no certificate has two possible issuers |
| `ChainTheorems.UniqueIsUnambiguous` | pkg/provider/provider.go:780-787 | unique present SKIs and no empty identifiers leave each certificate at most one possible issuer; absent identifiers are allowed |
| `ChainTheorems.RerunKeepsOrderIff` | pkg/provider/provider.go:773-834 | a reordered chain given back is rejected as a cycle if and only if some certificate could have issued a later one that is not before the first leaf; otherwise it keeps its order (first leaf in front) or is found incomplete |
| `ChainTheorems.FixedPointIff` | pkg/provider/provider.go:738-835 | every output is mapped to itself, byte for byte, unless it is a chain with such a pair of certificates; then, and only then, it is rejected as a cycle |
| `ChainTheorems.RerunCanFail` | pkg/provider/provider.go:773-819 | a bundle that is reordered and whose chain is then rejected because of a cycle |
| `ChainTheorems.BadCertificateIff` | pkg/provider/provider.go:753-756 | the parse error is returned if and only if some block does not parse |
| `ChainTheorems.ReadBackChain` | pkg/provider/provider.go:827-834 | a written chain is read back as the same certificates |
| `ChainTheorems.OutputHoldsSameCertificates` | pkg/provider/provider.go:821-834 | a success returns the input bytes or a text with a permutation of the input's certificates |
| `ChainTheorems.SameBytesForEveryOrder` | pkg/provider/provider.go:738-835 | with unique key identifiers, texts with the same certificates in any order give the same bytes |
| `ChainTheorems.Idempotent` | pkg/provider/provider.go:738-835 | with unique key identifiers, the function maps its own output to itself |
| `Pem.NextBlock` | pkg/provider/provider.go:747-752 | the loops consume the blocks of a text one by one, and always terminate |
| `PemInText.DecodeInText` | pkg/provider/provider.go:747-752 | a written block is found behind any lines that open no block, and in front of any text |
| `PemInText.BlocksInText` | pkg/provider/provider.go:747-752 | in a text with such lines before each block and after the last, exactly the blocks are found, in their order |
| `PemInText.DecodeLoose` | pkg/provider/provider.go:747-752 | a block is read whatever its line lengths, blanks and line ends (also CR LF) are, if its base64 text is that of some bytes |
| `PemInText.UnfinishedOpening` | pkg/provider/provider.go:747-752 | an opening line without closing dashes opens nothing, and the search goes on behind it |
| `PemInText.MislabelledBlock` | pkg/provider/provider.go:747-752 | a block closed with another label is passed over, and the next block is found |
| `PemInText.WrapLines` | pkg/provider/provider.go:827-833 | base64 text is written in lines of 64 characters, the last one possibly shorter |
| `PemTheorems.DecodeEncode` | pkg/provider/provider.go:747-832 | a written block, with its headers, is read back exactly, whatever follows it |
| `PemTheorems.BlocksOfEncodeAll` | pkg/provider/provider.go:847-858 | a text written block by block is read back as these blocks, then the rest |
| `PemTheorems.RewrittenIsReadBackIff` | pkg/provider/provider.go:848-855 | a block read from any text can be written again and read back if and only if it is not one without headers and content whose label has a colon |
| `Secrets.SplitCertAndKey` | pkg/provider/provider.go:841-863 | the first text is that of the certificate blocks, the second that of all others |
| `BundleTheorems.SplitInText` | pkg/provider/provider.go:841-863 | for a text with other lines around its blocks, the certificate file holds exactly its certificate blocks and the key file exactly the others |
| `BundleTheorems.ChainInText` | pkg/provider/provider.go:745-767 | the certificates of such a text are read as the certificates it was made of |
| `Secrets.SplitFilesHoldTheBlocks` | pkg/provider/provider.go:841-863 | for any text without such a block, the certificate file and the key file are read back as exactly its certificate blocks and its other blocks, headers included |
| `Secrets.SelectIsStable` | pkg/provider/provider.go:847-858 | each selection is the sub-sequence at exactly the positions of its kind, in their order |
| `Secrets.ConvertBlocks` | pkg/provider/provider.go:615-642 | certificates are kept and keys converted, without headers; the first failure is returned |
| `Secrets.DecodePkcs12` | pkg/provider/provider.go:604-656 | key text, then certificate text, reordered if asked for; every error path |
| `Secrets.CombinedIsKeyThenCert` | pkg/provider/provider.go:604-656 | for every block list, with or without chain construction and its fallback, splitting the converted text gives its key part and its certificate part |
| `BundleTheorems.ConvertedIff` | pkg/provider/provider.go:615-642 | all blocks are converted in order, each certificate with its own bytes and each key to the PKCS#8 form of what the first of the three parsers makes of it; or the error is that of the first block that cannot be |
| `BundleTheorems.ChainedBundle` | pkg/provider/provider.go:604-656 | with chain construction, a bundle whose certificates form one path is written so that exactly its keys and then its certificates along the path are found |
| `BundleTheorems.OtherBundle` | pkg/provider/provider.go:604-656 | in every other case of a success, with or without chain construction, its keys and then its certificates in bundle order |
| `BundleTheorems.BundleSucceedsIff` | pkg/provider/provider.go:644-656 | a bundle is written if and only if chains are not constructed, or there is a leaf and the walk from the first one ends |
| `BundleTheorems.TrustChainBundle` | pkg/provider/provider.go:604-656 | from the stored value: a chain of trust in any order is written as the keys and then the chain from the leaf on |
| `BundleTheorems.PlainBundle` | pkg/provider/provider.go:604-656 | without chain construction, as the keys and then the certificates as they come |
| `Secrets.KeyOnlyBundleFails` | pkg/provider/provider.go:646-651 | a bundle whose keys convert but that holds no certificate fails when chains are constructed, and converts when they are not |
| `Secrets.GetSecret` | pkg/provider/provider.go:456-503 | contents, suffixes and versions of a secret, and every error |
| `Secrets.SeparateFilesAgree` | pkg/provider/provider.go:489-503 | the combined file is the .key file followed by the .crt file |
| `VersionHistory.ListVersions` | pkg/provider/keyvault.go:77-108 | the pager loop lists the usable entries of all pages in order, or fails with the first failing page (the loops for keys and certificates are the same) |
| `VersionTheorems.ListingSucceedsIff` | pkg/provider/keyvault.go:81-85 | the listing succeeds if and only if no page fails |
| `VersionTheorems.OneMorePage` | pkg/provider/keyvault.go:81-106 | with one more page, the usable entries of that page come after those of the pages before it |
| `VersionTheorems.ListedIsStable` | pkg/provider/keyvault.go:86-103 | the versions of a page are those at exactly the positions of its usable entries, in their order, with identifier and time |
| `VersionHistory.Swap` | pkg/provider/types/types.go:113-115 | exchanges two versions and touches nothing else |
| `VersionHistory.Sort` | pkg/provider/provider.go:370-370 | leaves a descending permutation of the list |
| `VersionHistory.Walk` | pkg/provider/provider.go:372-391 | the loop returns exactly the window of the sorted list |
| `VersionHistory.GetLatestNKeyVaultObjects` | pkg/provider/provider.go:366-394 | sorts in place and returns the window of the result: contiguous from the first match, numbered from zero, all other fields kept |
| `VersionTheorems.SortIsUnique` | pkg/provider/types/types.go:109-111 | distinct creation times leave the sort one outcome |
| `VersionTheorems.PagesAndOrderDoNotMatter` | pkg/provider/keyvault.go:110-174 | if two listings hold the same entries on their pages, counted with multiplicity, and times are distinct, the choice is the same whatever the paging, the listing order and the sort |
| `VersionTheorems.ListedIffUsable` | pkg/provider/keyvault.go:86-103 | exactly the entries with attributes that are not disabled are listed; an undated one counts as created at the Unix epoch |
| `VersionTheorems.OnlyUsableVersions` | pkg/provider/provider.go:366-394 | every version that gets a file is that of an entry on some page that has attributes and is not disabled |
| `VersionTheorems.LatestIsNewest` | pkg/provider/provider.go:373-373 | without a version, or with "latest", the first version synced is that of an entry than which no usable entry of any page is newer |
| `VersionTheorems.PinnedGetsItsVersion` | pkg/provider/provider.go:375-378 | any other version is synced first, if and only if it is listed |
| `VersionTheorems.WindowIsContiguous` | pkg/provider/provider.go:373-390 | the window starts at the first match, is contiguous, ends at the limit or the end of the list, and keeps every field but alias and version |
| `VersionTheorems.NothingSyncedIff` | pkg/provider/provider.go:373-378 | the result is empty if and only if the pinned version is not listed, or nothing is |
| `VersionTheorems.DocumentedCountIff` | pkg/provider/provider.go:385-389 | at most N versions if and only if at most N are available, otherwise N + 1 |
| `VersionTheorems.HistoryOfTwo` | pkg/provider/provider.go:385-389 | a history of two syncs all of three versions |
| `VersionTheorems.RotationShifts` | pkg/provider/provider.go:366-394 | over a whole run that added k newer versions, index i >= k holds what was at i - k |
| `VersionTheorems.PinnedIsStable` | pkg/provider/provider.go:375-378 | newer versions with other ids leave a pinned result unchanged |
| `Paths.FileNameAcceptedIff` | pkg/provider/validate.go:65-85 | a name is accepted if and only if it is not empty, relative and free of ".." anywhere; the component check adds nothing |
| `Paths.CleanRelative` | pkg/provider/provider.go:382-382 | on a relative path without "..", cleaning is dropping empty and "." components |
| `Paths.AliasShape` | pkg/provider/provider.go:382-382 | the alias of version i is the cleaned base name with the number as its own last component |
| `Paths.PlainPathStays` | pkg/provider/validate.go:65-85 | an accepted name with any suffix is relative, has no ".." component and never leaves the mount root |
| `Paths.VersionPathStays` | pkg/provider/provider.go:326-326 | so is a version path with any suffix |
| `Paths.VersionPathsDistinct` | pkg/provider/provider.go:326-326 | the paths of one object are distinct for distinct indices and suffixes |
| `Paths.ItoaIsDecimal` | pkg/provider/provider.go:382-382 | the number in an alias is decimal, without leading zeros |
| `Base64.RoundTrip` | pkg/provider/provider.go:702-702 | decoding undoes encoding, for every byte string |
| `Base64.DecodesIff` | pkg/provider/provider.go:702-702 | which texts decode: line ends apart, groups of four digits with at most two padding characters at the end |
| `Base64.SextetsAreNumbers` | pkg/provider/provider.go:702-702 | four digits are the number that three bytes are |
| `Hex.DecodeIffEncoding` | pkg/provider/provider.go:706-706 | decoding succeeds on exactly the spellings of an encoding that differ in letter case |
| `Objects.AcceptedIff` | pkg/provider/validate.go:12-85 | from the fields alone, which objects are accepted |
| `Objects.AcceptedEncodingIsUsable` | pkg/provider/validate.go:12-56 | an accepted object never meets the invalid-encoding error; one that is not a secret passes through unchanged |
| `Objects.Base64SecretRoundTrip` | pkg/provider/provider.go:701-703 | a secret stored as base64 of b yields b, for every b and every case of the encoding name |
| `Objects.HexSecretRoundTrip` | pkg/provider/provider.go:705-707 | a hex secret yields b if and only if it spells b in some mixture of cases |
| `Objects.FormatAcceptedIff` | pkg/provider/validate.go:24-37 | exactly which formats are accepted, including the upper-case PFX that slips through |
| `Objects.UpperCaseFormatIsAccepted` | pkg/provider/validate.go:33-35 | a key with format "PFX" is accepted, with "pfx" it is refused |
| `Objects.PermissionErrorIff` | pkg/provider/types/parameters.go:134-144 | without a permission the mode is the default one; otherwise it is the sum of the digits by place if the text is an optional sign and octal digits within 32 bits, and zero with an error if not |
| `Objects.PermissionRoundTrip` | pkg/provider/types/parameters.go:134-144 | a mode written in octal, with any number of leading zeros, becomes that mode |
| `Objects.PermissionIsNotValidated` | pkg/provider/validate.go:12-20 | an accepted object stays accepted with any permission, and has no permission error if and only if that is empty or well-formed |
| `Objects.BadPermissionIsAccepted` | pkg/provider/provider.go:331-332 | an accepted secret with permission "0888", whose mode is zero and whose error is dropped |
| `ContentTheorems.PublicFileReadsBack` | pkg/provider/provider.go:432-453 | an accepted key or certificate gives exactly one file under its own name, in which a PEM reader finds one block with the bytes and version the vault holds |
| `ContentTheorems.StoredSecretFile` | pkg/provider/provider.go:308-334 | a secret of its own that stores b as base64, hex or plain text gives exactly one file with the bytes b |
| `MountTheorems.ContentSuffixes` | pkg/provider/provider.go:489-503 | contents carry one of the three suffixes, none of them twice |
| `Mount.ResolveObjectVersions` | pkg/provider/provider.go:343-356 | the object itself, or the window of some sorted list of its versions, or the listing error |
| `Mount.EmitObject` | pkg/provider/provider.go:308-337 | one file for each content, with path, mode, UID and version, or the first error |
| `Mount.MountObjects` | pkg/provider/provider.go:299-340 | all files of all objects in order, for some resolution of each, or the error of the first object that fails |
| `Entry.FirstBad` | pkg/provider/provider.go:258-275 | the error is that of the first object that cannot be decoded or is not accepted; none if and only if there is no such object |
| `Entry.DecodeObjects` | pkg/provider/provider.go:258-275 | the loop returns the decoded objects, all accepted, or that error |
| `Entry.GetSecretsStoreObjectContent` | pkg/provider/provider.go:163-341 | the first check that fails decides the error; the variable of the custom cloud is set if and only if the attributes pass; a success holds the files of the accepted objects, from the vault named, below the mount root |
| `Entry.AdmittedIff` | pkg/provider/provider.go:172-294 | exactly which attributes, secrets and objects pass all checks before the vault is read |
| `Entry.LateErrors` | pkg/provider/provider.go:230-294 | every error after the attributes and the cloud, in the order of the checks |
| `Entry.CredentialOfAttributes` | pkg/provider/provider.go:163-294 | the credential of a mount, in terms of its attributes |
| `Entry.VaultUrlsDistinct` | pkg/provider/provider.go:98-113 | accepted vault names with the same address are the same, and so are the DNS suffixes |
| `MountTheorems.ListingFailsIff` | pkg/provider/provider.go:343-364 | the listing fails if and only if the type is unknown or a page for the object's own type and name fails |
| `MountTheorems.ResolvedIsOffered` | pkg/provider/provider.go:343-394 | every version an object is resolved to is offered on the pages for its own type and name |
| `MountTheorems.ContentFilesShape` | pkg/provider/provider.go:315-334 | the m-th file has the name and suffix, UID, version and decoded bytes of the m-th content, and the mode its permission text and the default mode stand for |
| `MountTheorems.ContentFilesIff` | pkg/provider/provider.go:315-320 | every content is decoded, or the error is that of the first that cannot be |
| `MountTheorems.AllFilesIff` | pkg/provider/provider.go:308-340 | every object is read, or the error is that of the first that cannot be |
| `MountTheorems.SingleIdentity` | pkg/provider/types/parameters.go:113-131 | files of a single version are named by the alias, or by the name without one, with an allowed suffix, and have type and name as their UID |
| `MountTheorems.VersionUid` | pkg/provider/types/parameters.go:113-131 | the UID of version i ends in exactly its number |
| `MountTheorems.VersionUidsDistinct` | pkg/provider/types/parameters.go:113-121 | versions have distinct UIDs |
| `MountTheorems.MountedFilesAreSafe` | pkg/provider/provider.go:308-337 | the files of an accepted object have distinct paths below the mount root, for every vault and every sort |
| `MountTheorems.WholeMountIsSafe` | pkg/provider/provider.go:299-340 | no file of a successful mount of accepted objects leaves the mount root |
| `DistinctTheorems.ApartIsDistinct` | pkg/provider/provider.go:299-340 | if no two objects have a possible path in common (a condition on the configuration and the separate-files setting), no path occurs twice in a whole mount |
| `DistinctTheorems.DistinctInEveryVaultIff` | pkg/provider/provider.go:299-340 | for each setting of the provider: accepted objects write every path only once, in every vault and for every sort, if and only if they have no possible path in common under that setting (or one has an unknown type, so that no mount succeeds); the same holds if only vaults are considered that list distinct versions with distinct times |
| `DistinctTheorems.UnknownTypeFails` | pkg/provider/provider.go:442-452 | a mount that succeeds has only objects of the three types, though the type is not validated |
| `DistinctTheorems.SingleApartIff` | pkg/provider/provider.go:326-326 | two objects of one version have no possible path in common if and only if neither is named like a file of the other |
| `DistinctTheorems.VersionedApartIff` | pkg/provider/provider.go:382-382 | two objects with version history have no possible path in common if and only if their cleaned names differ |
| `DistinctTheorems.SuffixClash` | pkg/provider/provider.go:489-497 | two accepted secrets, one named like the certificate file of the other, which have a possible path in common if and only if separate files are asked for |
| `MountTheorems.NeverInvalidEncoding` | pkg/provider/provider.go:315-320 | no accepted object is refused for its encoding |
| `ProcessEnvironment.Save` | internal/identitybinding/identitybinding.go:74-82 | remembers the borrowed names, telling unset from set to empty |
| `ProcessEnvironment.Restore` | internal/identitybinding/identitybinding.go:83-91 | makes the whole environment what it was; only the borrowed names need hold values that could be set |
| `ProcessEnvironment.Borrow` | internal/identitybinding/identitybinding.go:93-103 | sets the three variables, leaving out the CA file if it does not exist |
| `ProcessEnvironment.ConstructorSees` | internal/identitybinding/identitybinding.go:93-103 | which value each of the three variables has for the constructor, also for values that cannot be set |
| `ProcessEnvironment.TransportSees` | internal/identitybinding/identitybinding.go:55-103 | these values are the configured address and name, or the default address and the computed name |
| `ProcessEnvironment.CreateProxyTransport` | internal/identitybinding/identitybinding.go:54-122 | on every exit path the environment is unchanged, and the constructor saw the borrowed one |
| `SharedRegister.SetAzureEnvironmentFilePath` | pkg/provider/provider.go:686-692 | an empty name changes nothing; another one sets the variable, or fails and sets nothing |
| `SharedRegister.ReadsLastWritten` | pkg/provider/provider.go:222-229 | in every interleaving a mount reads the last name written before, or the initial value |
| `SharedRegister.ReadStays` | pkg/provider/provider.go:222-229 | what a mount has read does not change any more |
| `SharedRegister.ReadsOwnNameIff` | pkg/provider/provider.go:222-229 | a mount reads its own name if and only if the last name written since its own write is the same |
| `SharedRegister.NoNameNoWrite` | pkg/provider/provider.go:687-689 | at every moment of every interleaving, taking out the turns of the mounts that name no file changes neither the variable nor what any other mount has read |
| `Auth.GetSecretsCredential` | pkg/auth/auth.go:359-381 | for each order of iteration, the last key that spells a name decides |
| `Auth.OrderDoesNotMatterIff` | pkg/auth/auth.go:364-380 | exactly when the result is the same for every order of iteration |
| `Auth.BuildSucceedsIff` | pkg/provider/provider.go:126-159 | exactly when a configuration is built |
| `Auth.RequestErrors` | pkg/provider/provider.go:172-241 | every error of a request up to its configuration, in the order of the checks |
| `Auth.RequestBuiltIff` | pkg/provider/provider.go:172-241 | from the attributes alone, exactly which requests get a configuration for every order of iteration over the secrets, and which for some order |
| `Auth.BuiltConfig` | pkg/auth/auth.go:167-190 | a configuration holds the enabled mode, the token of that mode's audience (both by name), and client ID and secret from the secrets if and only if nothing else identifies the mount |
| `Auth.CredentialIff` | pkg/auth/auth.go:193-216 | a configuration that was built has a credential unless the proxy is asked for and not available |
| `Auth.NoLateErrors` | pkg/auth/auth.go:193-216 | after the mode check and a built configuration, the errors left in `GetCredential` are ruled out, except an unavailable proxy in proxy mode |
| `Auth.CredentialMatchesMode` | pkg/auth/auth.go:193-216 | the credential is that of the one enabled mode, with the token of that mode's audience, or client ID and secret from the secrets |
| `Auth.OneSpellingEach` | pkg/auth/auth.go:364-372 | at most one key for each name makes the order irrelevant |
| `Auth.CredentialOrderDoesNotMatterIff` | pkg/auth/auth.go:182-187 | exactly when the credential of a request is the same for every order of iteration |
| `Fold.LowerIff` | pkg/auth/auth.go:365-365 | which spellings of a secret's key become a given name in lower case |
| `Fold.FoldIff` | pkg/provider/validate.go:28-28 | which spellings are equal to a given name without regard to case |
| `Base32Hex.GroupIsNumber` | internal/identitybinding/identitybinding.go:187-187 | eight digits are the number that five bytes are |
| `Base32Hex.Injective` | internal/identitybinding/identitybinding.go:187-187 | different byte strings have different encodings |
| `ServerName.NameShape` | internal/identitybinding/identitybinding.go:185-189 | the letter a, the 52 digits of the digest of the salted identifier in lower case, and ".ests.aks"; the label meets sections 2.3.1 and 2.3.4 of RFC 1035 |
| `ServerName.NamesAreDistinct` | internal/identitybinding/identitybinding.go:185-189 | clusters with the same name have the same digest |
| `ServerName.ExtractClusterId` | internal/identitybinding/identitybinding.go:169-181 | the identifier of the first matching name, with prefix + id + suffix equal to it, and each way to fail |
| `ServerName.CrossedIffOverlap` | internal/identitybinding/identitybinding.go:171-172 | exactly one string has the prefix and the suffix and crossing slice bounds |

## Left out

- Azure SDK clients, HTTP to the node identity server, TLS dialling, gRPC serving and health checks: no logic of the provider's own; what they return is a parameter.
- X.509, PKCS#12, RSA and EC marshalling and SHA-256: function-valued parameters. `getKey` is reduced to its checks and the marshalled bytes.
- YAML and JSON decoding and the trimming of fields: the model starts from decoded objects and token maps.
- Missing identifiers of listed versions and a missing content type of a certificate secret: the code dereferences them unchecked, the model takes them as present.
- Reading a custom cloud file is one step of `SharedRegister`; a mount of another cloud takes that step without using what it read.
- Metrics, logging and redaction, and the trimming and renaming of attributes: they would add only easy members.
- Windows path separators: the Unix separator is used throughout.
- Errors of the Azure SDK's credential constructors: `Auth.GetCredential` ends where they are called.
- Headers of PEM blocks are trimmed of ASCII white space only, where Go also trims other Unicode spaces.
- Pem.Decode: follows the search of Go's `encoding/pem` up to release 1.25.1, from the first opening marker on; go.mod names 1.25.11, and later releases look for a closing marker first and then for the last opening marker before it. Malformed text between markers, and a label or header that itself holds an opening marker, may be read differently there.
- Secrets.SeparateFilesAgree: assumes that the PKCS#12 library labels its blocks without line ends and colons; it uses only two labels.
- VersionHistory.Sort: an insertion sort stands for Go's sort; nothing but a descending permutation is used of it.
- Paths are compared as texts: "a//b" and "a/b" count as different paths of a mount.
