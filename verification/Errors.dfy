/**
  Error codes of the PSP kernel: 0x80010000 plus the error number, as negative integers. The header that
  defines them is not part of this model; only their signs, and which are equal, matter to the proofs.
*/
module Errors {
  import opened Bytes

  const ENOENT := 0x8001_0002 - U32_MODULUS
  const EBADF := 0x8001_0009 - U32_MODULUS
  const ENODEV := 0x8001_0013 - U32_MODULUS
  const ENOTDIR := 0x8001_0014 - U32_MODULUS
  const EINVAL := 0x8001_0016 - U32_MODULUS
  const EMFILE := 0x8001_0018 - U32_MODULUS
  const EFBIG := 0x8001_001B - U32_MODULUS
  const ENAMETOOLONG := 0x8001_005B - U32_MODULUS
}
