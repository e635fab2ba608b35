/** The compression levels of the Tight encoder. */
module TightLevels {
  import opened Basics

  /** What matters of an entry of tightConf. */
  datatype Conf = Conf(maxRectSize: int, maxRectWidth: int, monoMinRectSize: int, idxZlibLevel: nat, monoZlibLevel: nat,
                       rawZlibLevel: nat, gradientZlibLevel: nat, idxMaxColorsDivisor: int)

  predicate IsConf(c: Conf) {
    256 <= c.maxRectSize <= 65536 && 0 < c.maxRectWidth <= 2048 && c.maxRectWidth <= c.maxRectSize && c.idxMaxColorsDivisor > 0
  }

  function TightConf(level: int): (c: Conf)
    requires 0 <= level < 10
    ensures IsConf(c)
  {
    [Conf(512, 32, 6, 0, 0, 0, 0, 4),
     Conf(2048, 128, 6, 1, 1, 1, 0, 8),
     Conf(6144, 256, 8, 3, 3, 2, 0, 24),
     Conf(10240, 1024, 12, 5, 5, 3, 0, 32),
     Conf(16384, 2048, 12, 6, 6, 4, 0, 32),
     Conf(32768, 2048, 12, 7, 7, 5, 4, 32),
     Conf(65536, 2048, 16, 7, 7, 6, 4, 48),
     Conf(65536, 2048, 16, 8, 8, 7, 5, 64),
     Conf(65536, 2048, 32, 9, 9, 8, 6, 64),
     Conf(65536, 2048, 32, 9, 9, 9, 6, 96)][level]
  }

  /** The zlib level of each of the four streams. */
  function ZlibLevel(c: Conf, id: nat): nat
    requires id < 4
  {
    match id
    case 0 => c.rawZlibLevel
    case 1 => c.monoZlibLevel
    case 2 => c.idxZlibLevel
    case 3 => c.gradientZlibLevel
  }

  /** The size of the after-buffer for data of some size. */
  function AfterSize(size: nat): nat {
    size + (size + 99) / 100 + 12
  }

  /** The length of what fits into the after-buffer can be sent. */
  lemma AfterSizeSmall(c: Conf, n: nat)
    requires IsConf(c) && 1 <= n <= 4
    ensures 256 * n <= c.maxRectSize * n <= AfterSize(c.maxRectSize * n) < 0x40_0000
  {
    MulMonotone(256, c.maxRectSize, n);
    MulMonotone(c.maxRectSize, 65536, n);
  }
}
