/**
 * The release-artifact naming of helix_hl_diff/helix.py: the archive kind a
 * build target is published as, the artifact's file name and the URL it is
 * downloaded from. The download and extraction themselves are I/O.
 */
module Helix {
  import opened Archive

  const RELEASES: string := "https://github.com/helix-editor/helix/releases/download/"

  /** `sub` occurs in `s` at offset i. */
  predicate OccursAt(s: string, sub: string, i: int) {
    0 <= i && i + |sub| <= |s| && s[i..i + |sub|] == sub
  }

  /** Python's `sub in s` for strings. */
  function Contains(s: string, sub: string): (r: bool)
    ensures r <==> exists i :: OccursAt(s, sub, i)
    decreases |s|
  {
    if |s| < |sub| then false
    else if s[..|sub|] == sub then
      assert OccursAt(s, sub, 0);
      true
    else
      var r := Contains(s[1..], sub);
      assert forall i :: OccursAt(s[1..], sub, i) ==> OccursAt(s, sub, i + 1) by {
        forall i | OccursAt(s[1..], sub, i) ensures OccursAt(s, sub, i + 1) {
          assert s[1..][i..i + |sub|] == s[i + 1..i + 1 + |sub|];
        }
      }
      assert forall i :: OccursAt(s, sub, i) && i > 0 ==> OccursAt(s[1..], sub, i - 1) by {
        forall i | OccursAt(s, sub, i) && i > 0 ensures OccursAt(s[1..], sub, i - 1) {
          assert s[1..][i - 1..i - 1 + |sub|] == s[i..i + |sub|];
        }
      }
      r
  }

  /** _archive_type: Windows builds ship as zip files, all others as tarballs. */
  function ArchiveTypeFor(target: string): (a: ArchiveType)
    ensures a == Zip <==> exists i :: OccursAt(target, "windows", i)
  {
    if Contains(target, "windows") then Zip else Tarball
  }

  /** release_artifact_name: the name starts with "helix-" and ends in ".zip" exactly for windows targets. */
  function ReleaseArtifactName(version: string, target: string): (name: string)
    ensures StartsWith(name, "helix-")
    ensures EndsWith(name, ".zip") <==> exists i :: OccursAt(target, "windows", i)
  {
    var ext := Ext(ArchiveTypeFor(target));
    var name := "helix-" + version + "-" + target + ext;
    assert name[|name| - |ext|..] == ext;
    assert ext != ".zip" ==> name[|name| - 4..] == ext[3..];
    name
  }

  /** The URL under the release's directory that names the artifact. */
  function DownloadUrl(version: string, target: string): (url: string)
    ensures StartsWith(url, RELEASES)
    ensures EndsWith(url, ReleaseArtifactName(version, target))
    ensures |url| == |RELEASES| + |version| + 1 + |ReleaseArtifactName(version, target)|
  {
    RELEASES + version + "/" + ReleaseArtifactName(version, target)
  }

  predicate StartsWith(s: string, prefix: string) {
    |prefix| <= |s| && s[..|prefix|] == prefix
  }

  predicate EndsWith(s: string, suffix: string) {
    |suffix| <= |s| && s[|s| - |suffix|..] == suffix
  }

  /** A target with "windows" somewhere in it gets a zip archive. */
  lemma WindowsTargetIsZip(target: string, i: nat)
    requires OccursAt(target, "windows", i)
    ensures ArchiveTypeFor(target) == Zip
  {
  }

  /** A target without "windows" anywhere in it gets a tarball. */
  lemma OtherTargetIsTarball(target: string)
    requires forall i :: !OccursAt(target, "windows", i)
    ensures ArchiveTypeFor(target) == Tarball
  {
  }

  /**
   * The artifact name is "helix-", the version, "-", the target and the
   * extension of the target's archive kind, in that order.
   */
  lemma ArtifactNameLayout(version: string, target: string)
    ensures var name := ReleaseArtifactName(version, target);
      && StartsWith(name, "helix-")
      && name[6..6 + |version|] == version
      && name[6 + |version|] == '-'
      && name[7 + |version|..7 + |version| + |target|] == target
      && EndsWith(name, Ext(ArchiveTypeFor(target)))
      && |name| == 7 + |version| + |target| + |Ext(ArchiveTypeFor(target))|
  {
  }

  /** Windows artifacts end in ".zip", all others in ".tar.gz". */
  lemma ArtifactExtension(version: string, target: string)
    ensures Contains(target, "windows") ==> EndsWith(ReleaseArtifactName(version, target), ".zip")
    ensures !Contains(target, "windows") ==> EndsWith(ReleaseArtifactName(version, target), ".tar.gz")
  {
    ArtifactNameLayout(version, target);
  }

  /** The download URL is the releases prefix, the version, "/" and the artifact name. */
  lemma DownloadUrlLayout(version: string, target: string)
    ensures var url := DownloadUrl(version, target);
      && StartsWith(url, RELEASES)
      && url[|RELEASES|..|RELEASES| + |version|] == version
      && url[|RELEASES| + |version|] == '/'
      && EndsWith(url, ReleaseArtifactName(version, target))
  {
  }

  /**
   * The downloaded archive goes to the zip extractor exactly when its name
   * ends in ".zip": the name and the extractor follow the same archive kind.
   */
  lemma ExtractorMatchesArtifact(version: string, target: string)
    ensures Extract(ArchiveTypeFor(target)) == [ZipExtractor] <==>
      EndsWith(ReleaseArtifactName(version, target), ".zip")
  {
    ArtifactNameLayout(version, target);
    var name := ReleaseArtifactName(version, target);
    if ArchiveTypeFor(target) == Tarball {
      assert name[|name| - 4..] == Ext(Tarball)[3..];
    }
  }

  /** The release and build target the tool downloads when none is configured. */
  const DEFAULT_VERSION: string := "25.01.1"
  const DEFAULT_TARGET: string := "x86_64-windows"

  /** The artifact the tool downloads by default. */
  lemma DefaultArtifact()
    ensures ReleaseArtifactName(DEFAULT_VERSION, DEFAULT_TARGET) == "helix-25.01.1-x86_64-windows.zip"
  {
    WindowsTargetIsZip(DEFAULT_TARGET, 7);
  }
}
