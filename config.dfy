/**
 * The part of `server_config_t` (include/server.h) that the request path
 * reads. The integer flags are C truth values, modelled as `bool`.
 */
module ServerConfig {
  datatype Config = Config(
    docRoot: string,
    keepAliveTimeout: int,
    enableGzip: bool,
    gzipMinSize: int,
    enableRateLimit: bool,
    rateLimitMax: int,
    rateLimitInterval: int)
}
