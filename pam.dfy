/** The PAM return codes that cfg.c produces, with their Linux-PAM values. */
module Pam {
  const SUCCESS: int := 0
  const SERVICE_ERR: int := 3
  const SYSTEM_ERR: int := 4
  const BUF_ERR: int := 5
}
