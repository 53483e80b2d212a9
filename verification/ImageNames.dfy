/** How an operating image, its root directory and its queue marker are named on the head node. */
module ImageNames {

  datatype Distro = RHEL | OL | Rocky | AlmaLinux | Ubuntu

  datatype Platform = El8 | El9 | El10 | Ubuntu2404

  datatype Arch = X86_64 | Ppc64le

  datatype OS = OS(distro: Distro, platform: Platform, version: string, arch: Arch) {
    /** Ubuntu is the only distribution with DEB packages. */
    predicate IsDeb() {
      distro.Ubuntu?
    }
  }

  /** The distribution name with its version, as xCAT spells it. */
  function DistroVersion(os: OS): string {
    match os.distro
    case RHEL => "rhels" + os.version + (if os.platform.El9? then ".0" else "")
    case OL => "ol" + os.version
    case Rocky => "rocky" + os.version
    case AlmaLinux => "alma" + os.version
    case Ubuntu => "ubuntu" + os.version
  }

  function ArchName(arch: Arch): string {
    match arch
    case X86_64 => "x86_64"
    case Ppc64le => "ppc64le"
  }

  /** What distinguishes one stateless compute image from another. */
  datatype ImageKey = ImageKey(distroVersion: string, arch: Arch)

  function KeyOf(os: OS): ImageKey {
    ImageKey(DistroVersion(os), os.arch)
  }

  const IMAGE_SUFFIX: string := "-netboot-compute"
  const ROOT_PREFIX: string := "/install/netboot/"
  const ROOT_SUFFIX: string := "/compute/rootimg"
  const MARKER_PREFIX: string := "/install/custom/netboot/compute.queue."

  function VersionAndArch(key: ImageKey, separator: string): string {
    key.distroVersion + separator + ArchName(key.arch)
  }

  function ImageName(key: ImageKey): string {
    VersionAndArch(key, "-") + IMAGE_SUFFIX
  }

  function RootPath(key: ImageKey): string {
    ROOT_PREFIX + VersionAndArch(key, "/") + ROOT_SUFFIX
  }

  function MarkerFile(image: string): string {
    MARKER_PREFIX + image
  }

  function MarkerOf(key: ImageKey): string {
    MarkerFile(ImageName(key))
  }

  lemma SameTail(prefix: string, a: string, b: string)
    requires prefix + a == prefix + b
    ensures a == b
  {
    assert (prefix + a)[|prefix|..] == a && (prefix + b)[|prefix|..] == b;
  }

  lemma SameHead(a: string, b: string, suffix: string)
    requires a + suffix == b + suffix
    ensures a == b
  {
    assert (a + suffix)[..|a|] == a && (b + suffix)[..|b|] == b;
  }

  lemma ArchNamesEnd(arch: Arch)
    ensures ArchName(arch) != "" && ArchName(arch)[|ArchName(arch)| - 1] == if arch.X86_64? then '4' else 'e'
  {
  }

  lemma LastOf(a: string, b: string)
    requires b != ""
    ensures (a + b)[|a + b| - 1] == b[|b| - 1]
  {
  }

  /** A version, a separator and an architecture name determine both: the last letters differ. */
  lemma SameVersionAndArch(a: ImageKey, b: ImageKey, separator: string)
    requires VersionAndArch(a, separator) == VersionAndArch(b, separator)
    ensures a == b
  {
    hide ArchName;
    ArchNamesEnd(a.arch);
    ArchNamesEnd(b.arch);
    LastOf(a.distroVersion + separator, ArchName(a.arch));
    LastOf(b.distroVersion + separator, ArchName(b.arch));
    SameHead(a.distroVersion + separator, b.distroVersion + separator, ArchName(a.arch));
    SameHead(a.distroVersion, b.distroVersion, separator);
  }

  lemma NameIdentifiesImage(a: ImageKey, b: ImageKey)
    ensures a == b <==> ImageName(a) == ImageName(b)
  {
    hide VersionAndArch, IMAGE_SUFFIX;
    if ImageName(a) == ImageName(b) {
      SameHead(VersionAndArch(a, "-"), VersionAndArch(b, "-"), IMAGE_SUFFIX);
      SameVersionAndArch(a, b, "-");
    }
  }

  lemma RootIdentifiesImage(a: ImageKey, b: ImageKey)
    ensures a == b <==> RootPath(a) == RootPath(b)
  {
    hide VersionAndArch, ROOT_PREFIX, ROOT_SUFFIX;
    if RootPath(a) == RootPath(b) {
      SameHead(ROOT_PREFIX + VersionAndArch(a, "/"), ROOT_PREFIX + VersionAndArch(b, "/"), ROOT_SUFFIX);
      SameTail(ROOT_PREFIX, VersionAndArch(a, "/"), VersionAndArch(b, "/"));
      SameVersionAndArch(a, b, "/");
    }
  }

  lemma MarkerIdentifiesImage(a: ImageKey, b: ImageKey)
    ensures a == b <==> MarkerOf(a) == MarkerOf(b)
  {
    hide ImageName, MARKER_PREFIX;
    if MarkerOf(a) == MarkerOf(b) {
      SameTail(MARKER_PREFIX, ImageName(a), ImageName(b));
      NameIdentifiesImage(a, b);
    }
  }

  /** Root paths, image names and marker files are three names for the same image. */
  lemma NamesIdentifyImages(a: ImageKey, b: ImageKey)
    ensures a == b <==> ImageName(a) == ImageName(b)
    ensures a == b <==> RootPath(a) == RootPath(b)
    ensures a == b <==> MarkerOf(a) == MarkerOf(b)
  {
    hide *;
    NameIdentifiesImage(a, b);
    RootIdentifiesImage(a, b);
    MarkerIdentifiesImage(a, b);
  }

  /** Two head-node configurations that name the same image also use the same package family. */
  lemma SameImageSamePackageFamily(a: OS, b: OS)
    requires KeyOf(a) == KeyOf(b)
    ensures a.IsDeb() == b.IsDeb()
  {
    assert DistroVersion(a)[0] == DistroVersion(b)[0];
  }
}
