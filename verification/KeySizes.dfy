/** The sizes of what the key exchange carries, in bytes (security/Crypto.h). */
module KeySizes {
  const PUBLIC_KEY_BYTES := 64
  const SALT_BYTES := 16
}
